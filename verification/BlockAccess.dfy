/**
 Byte access to block devices (kernel/drivers/block.c) and partitions as windows on a parent device
 (kernel/drivers/partitions.c), against a flat sequence of bytes.
 */
module BlockAccess {

  import opened Common
  import opened Patches
  import opened Rows

  type byte = bv8

  /** A driver's disk, or a partition of it given by its first sector and its number of sectors. */
  datatype Device = Whole | Part(start: nat, size: nat)

  const EINVAL: int := 22

  predicate Sensible(dev: Device) {
    dev.Part? ==> dev.start + dev.size < 0x8000_0000_0000_0000
  }

  /** The sector on the disk that a device means by `lba`, or the disk's length if there is none. */
  function Target(dev: Device, lba: nat, sectors: nat): (r: nat)
    ensures r <= sectors
  {
    match dev
    case Whole => Min(lba, sectors)
    case Part(start, size) => if lba < size then Min(start + lba, sectors) else sectors
  }

  /** The rows of the disk that a device consists of. */
  ghost function Window(dev: Device, rows: seq<seq<byte>>): (r: seq<seq<byte>>) {
    match dev
    case Whole => rows
    case Part(start, size) => rows[Min(start, |rows|)..Min(start + size, |rows|)]
  }

  /** The bytes a device shows. */
  ghost function Bytes(dev: Device, rows: seq<seq<byte>>): seq<byte> {
    Flat(Window(dev, rows))
  }

  /** What a device shows is the parent disk shifted by the partition start. */
  lemma PartIsWindow(dev: Device, rows: seq<seq<byte>>, n: nat)
    requires dev.Part? && Full(rows, n) && dev.start + dev.size <= |rows|
    ensures Times(dev.start, n) + Times(dev.size, n) <= |Flat(rows)|
    ensures Bytes(dev, rows) == Flat(rows)[Times(dev.start, n)..Times(dev.start, n) + Times(dev.size, n)]
  {
    var a, b := dev.start, dev.start + dev.size;
    assert rows == (rows[..a] + rows[a..b]) + rows[b..];
    FlatJoins(rows[..a] + rows[a..b], rows[b..]);
    FlatJoins(rows[..a], rows[a..b]);
    FlatSize(rows[..a], n);
    FlatSize(rows[a..b], n);
    Middle(Flat(rows[..a]), Flat(rows[a..b]), Flat(rows[b..]));
  }

  class Disk {
    const sectorSize: nat
    const sectors: array<seq<byte>>
    /** What the driver answers for a sector that it does not have. */
    const refusal: int

    ghost predicate Valid()
      reads this, sectors
    {
      && refusal < 0 && 0 < sectorSize <= 4096 && sectors.Length <= Times(sectors.Length, sectorSize) < 0x8000_0000_0000_0000
      && forall z {:trigger Gate(z)} :: Gate(z) ==> Full(sectors[..], sectorSize)
    }

    /** A disk of blank sectors. */
    constructor (count: nat, n: nat, error: int)
      requires 0 < n <= 4096 && Times(count, n) < 0x8000_0000_0000_0000 && error < 0
      ensures Valid() && fresh(sectors) && sectors.Length == count && sectorSize == n && refusal == error
      ensures forall i :: 0 <= i < count ==> sectors[i] == Fill(n, 0)
    {
      sectorSize, refusal := n, error;
      sectors := new seq<byte>[count](_ => Fill(n, 0));
      new;
      AtLeastOne(count, n);
      assert Full(sectors[..], n);
    }

    /** `partition_read_sectors` and `partition_write_sectors` check, then shift; a driver refuses sectors it does not have. */
    method Locate(dev: Device, lba: nat) returns (r: nat, error: int)
      requires Valid() && Sensible(dev) && lba < TOP
      ensures r == Target(dev, lba, sectors.Length)
      ensures error == (if dev.Part? && lba >= dev.size && dev.start + lba != TOP - 1 then -EINVAL else refusal)
    {
      error := refusal;
      match dev {
        case Whole => r := Min(lba, sectors.Length);
        case Part(start, size) =>
          var adjusted := Unsigned(start + lba);
          if adjusted < start || Unsigned(adjusted + 1) > start + size { return sectors.Length, -EINVAL; }
          r := Min(adjusted, sectors.Length);
      }
    }

    lemma WindowRows(dev: Device)
      requires Valid()
      ensures Full(Window(dev, sectors[..]), sectorSize) && |Bytes(dev, sectors[..])| < 0x8000_0000_0000_0000
    {
      assert Gate(0);
      FlatSize(Window(dev, sectors[..]), sectorSize);
      var k := |Window(dev, sectors[..])|;
      if k < sectors.Length { RowsApart(k, sectors.Length, sectorSize); }
    }

    /** `read_sectors` of one sector. */
    method ReadSector(dev: Device, lba: nat) returns (code: int, sector: seq<byte>)
      requires Valid() && Sensible(dev) && lba < TOP
      ensures code >= 0 <==> lba < |Window(dev, sectors[..])|
      ensures code >= 0 ==> sector == Window(dev, sectors[..])[lba] && |sector| == sectorSize
    {
      assert Gate(0);
      var at, error := Locate(dev, lba);
      if at == sectors.Length { return error, []; }
      code, sector := 0, sectors[at];
    }

    /** `write_sectors` of one sector. */
    method WriteSector(dev: Device, lba: nat, sector: seq<byte>) returns (code: int)
      requires Valid() && Sensible(dev) && lba < TOP && |sector| == sectorSize
      modifies sectors
      ensures Valid() && (code >= 0 <==> lba < |Window(dev, old(sectors[..]))|)
      ensures code < 0 ==> sectors[..] == old(sectors[..])
      ensures code >= 0 ==> Window(dev, sectors[..]) == Window(dev, old(sectors[..]))[lba := sector]
      ensures OutsideSame(dev, old(sectors[..]), sectors[..])
    {
      assert Gate(0);
      var at, error := Locate(dev, lba);
      if at == sectors.Length { return error; }
      sectors[at] := sector;
      code := 0;
    }

    /** The sectors that `block_read` and `block_write` run over; `last` comes from an unsigned subtraction. */
    method Range(offset: nat, size: nat) returns (start: nat, last: nat)
      requires Valid() && offset < TOP && size < TOP
      ensures start == RowOf(offset, sectorSize) && last == Last(offset, size, sectorSize)
      ensures Times(start, sectorSize) <= offset < Times(start, sectorSize) + sectorSize
      ensures last < TOP
      ensures Proper(offset, size) ==> Times(last, sectorSize) < offset + size <= Times(last, sectorSize) + sectorSize && start <= last
    {
      start := Quotient(offset, sectorSize);
      last := Quotient(Unsigned(offset + size - 1), sectorSize);
      if Proper(offset, size) && last < start { RowsApart(last, start, sectorSize); }
    }

    /** The part of sector s that belongs to the transfer, `done` bytes of which are over. */
    method Clip(s: nat, ghost start: nat, offset: nat, size: nat, done: nat) returns (from: nat, to: nat)
      requires Valid() && done <= size && start <= s
      requires Times(start, sectorSize) <= offset < Times(start, sectorSize) + sectorSize
      ensures from <= to <= sectorSize && done + (to - from) <= size
      ensures Reached(s, start, offset, size, done, sectorSize) ==>
        && (from < to ==> Times(s, sectorSize) + from == offset + done)
        && offset <= Times(s + 1, sectorSize) && done + (to - from) == Min(size, Times(s + 1, sectorSize) - offset)
    {
      TimesIsProduct(s, sectorSize);
      var sectorStart := s * sectorSize;
      if start < s { RowsApart(start, s, sectorSize); }
      from := if offset > sectorStart then offset - sectorStart else 0;
      to := sectorSize;
      if done + (to - from) > size {
        to := from + (size - done);
      }
    }

    /**
     `block_read`, for every offset and size that fit the parameters' types; the size it returns is cut to
     an `int`, and callers take a negative one for an error.
     */
    method BlockRead(dev: Device, offset: nat, size: nat) returns (code: int, buffer: seq<byte>)
      requires Valid() && Sensible(dev) && offset < TOP && size < TOP
      ensures if Runs(offset, size, sectorSize, |Window(dev, sectors[..])|) then code == ToInt(size) else code < 0
      ensures Runs(offset, size, sectorSize, |Window(dev, sectors[..])|) ==>
        |buffer| == Moved(offset, size, sectorSize) && Got(Bytes(dev, sectors[..]), offset, buffer)
      ensures size > 0 ==> (RightRead(Bytes(dev, sectors[..]), offset, size, code, buffer)
        <==> Reported(offset, size, |Bytes(dev, sectors[..])|))
    {
      code, buffer := ReadLoop(dev, offset, size);
      WindowRows(dev);
      ReadExact(Window(dev, sectors[..]), sectorSize, offset, size, code, buffer);
    }

    method ReadLoop(dev: Device, offset: nat, size: nat) returns (code: int, buffer: seq<byte>)
      requires Valid() && Sensible(dev) && offset < TOP && size < TOP
      ensures if Runs(offset, size, sectorSize, |Window(dev, sectors[..])|) then code == ToInt(size) else code < 0
      ensures Runs(offset, size, sectorSize, |Window(dev, sectors[..])|) ==>
        |buffer| == Moved(offset, size, sectorSize) && Got(Bytes(dev, sectors[..]), offset, buffer)
    {
      var start, last := Range(offset, size);
      ghost var count, flat := |Window(dev, sectors[..])|, Bytes(dev, sectors[..]);
      buffer := [];
      var s := start;
      ReadNothing(flat, offset);
      while s <= last
        invariant start <= s && |buffer| <= size && (s == start || (s <= last + 1 && s <= count))
        invariant Reached(s, start, offset, size, |buffer|, sectorSize) && Got(flat, offset, buffer)
        decreases if s <= last then last + 1 - s else 0
      {
        code, buffer := ReadRound(dev, s, start, offset, size, buffer);
        if code < 0 {
          LoopFailed(s, start, last, offset, size, sectorSize, count);
          return;
        }
        s := s + 1;
      }
      LoopDone(s, start, last, offset, size, |buffer|, sectorSize, count);
      code := ToInt(size);
    }

    /** One round of the loop of `block_read`. */
    method ReadRound(dev: Device, s: nat, ghost start: nat, offset: nat, size: nat, buffer: seq<byte>) returns (code: int, buffer': seq<byte>)
      requires Valid() && Sensible(dev) && start <= s < TOP && |buffer| <= size
      requires Times(start, sectorSize) <= offset < Times(start, sectorSize) + sectorSize
      requires Reached(s, start, offset, size, |buffer|, sectorSize) && Got(Bytes(dev, sectors[..]), offset, buffer)
      ensures code >= 0 <==> s < |Window(dev, sectors[..])|
      ensures code >= 0 ==> |buffer'| <= size && Reached(s + 1, start, offset, size, |buffer'|, sectorSize) && Got(Bytes(dev, sectors[..]), offset, buffer')
    {
      var sector;
      buffer' := buffer;
      code, sector := ReadSector(dev, s);
      if code < 0 { return; }
      var from, to := Clip(s, start, offset, size, |buffer|);
      WindowRows(dev);
      GotMore(Window(dev, sectors[..]), sectorSize, s, from, to, offset, buffer);
      RoundDone(s, start, offset, size, |buffer|, from, to, sectorSize);
      buffer' := buffer + sector[from..to];
    }

    /** Its second half. */
    method PutPiece(dev: Device, s: nat, sector: seq<byte>, from: nat, piece: seq<byte>, ghost offset: nat, ghost buffer: seq<byte>, ghost n: nat, ghost before: seq<byte>)
      returns (code: int)
      requires Valid() && Sensible(dev) && s < TOP && s < |Window(dev, sectors[..])| && sector == Window(dev, sectors[..])[s]
      requires |sector| == sectorSize && from + |piece| <= sectorSize && (piece != [] ==> Times(s, sectorSize) + from == offset + n)
      requires n + |piece| <= |buffer| && piece == buffer[n..n + |piece|] && Putting(before, Bytes(dev, sectors[..]), offset, buffer, n)
      modifies sectors
      ensures Valid() && OutsideSame(dev, old(sectors[..]), sectors[..]) && code >= 0
      ensures |Window(dev, sectors[..])| == |Window(dev, old(sectors[..]))|
      ensures Putting(before, Bytes(dev, sectors[..]), offset, buffer, n + |piece|)
    {
      ghost var now := Window(dev, sectors[..]);
      WindowRows(dev);
      code := WriteSector(dev, s, Patch(sector, from, piece));
      PutMore(before, now, sectorSize, s, from, piece, offset, buffer, n);
    }

    /** One round of the loop of `block_write`: a sector is read, changed and written back. */
    method WriteRound(dev: Device, s: nat, ghost start: nat, offset: nat, buffer: seq<byte>, n: nat, ghost before: seq<byte>) returns (code: int, n': nat)
      requires Valid() && Sensible(dev) && start <= s < TOP && n <= |buffer|
      requires Times(start, sectorSize) <= offset < Times(start, sectorSize) + sectorSize
      requires Reached(s, start, offset, |buffer|, n, sectorSize)
      requires Putting(before, Bytes(dev, sectors[..]), offset, buffer, n)
      modifies sectors
      ensures Valid() && OutsideSame(dev, old(sectors[..]), sectors[..])
      ensures |Window(dev, sectors[..])| == |Window(dev, old(sectors[..]))|
      ensures code >= 0 <==> s < |Window(dev, old(sectors[..]))|
      ensures code < 0 ==> sectors[..] == old(sectors[..]) && n' == n
      ensures n' <= |buffer| && (code >= 0 ==> Reached(s + 1, start, offset, |buffer|, n', sectorSize))
      ensures Putting(before, Bytes(dev, sectors[..]), offset, buffer, n')
    {
      var sector;
      n' := n;
      code, sector := ReadSector(dev, s);
      if code < 0 { return; }
      var from, to := Clip(s, start, offset, |buffer|, n);
      var piece := buffer[n..n + (to - from)];
      code := PutPiece(dev, s, sector, from, piece, offset, buffer, n, before);
      n' := n + (to - from);
      RoundDone(s, start, offset, |buffer|, n, from, to, sectorSize);
    }

    /**
     `block_write`. A failure can leave a first part written, `done` bytes long; nothing else of the device,
     and nothing outside of it, changes in any case.
     */
    method BlockWrite(dev: Device, offset: nat, buffer: seq<byte>) returns (code: int, ghost done: nat)
      requires Valid() && Sensible(dev) && offset < TOP && |buffer| < TOP
      modifies sectors
      ensures Valid() && OutsideSame(dev, old(sectors[..]), sectors[..])
      ensures if Runs(offset, |buffer|, sectorSize, |Window(dev, old(sectors[..]))|)
        then code == ToInt(|buffer|) && done == Moved(offset, |buffer|, sectorSize)
        else code < 0
      ensures done <= |buffer| && Put(Bytes(dev, old(sectors[..])), Bytes(dev, sectors[..]), offset, buffer[..done])
      ensures |buffer| > 0 ==> (RightWrite(Bytes(dev, old(sectors[..])), offset, |buffer|, code, done)
        <==> Reported(offset, |buffer|, |Bytes(dev, old(sectors[..]))|))
    {
      ghost var rows := Window(dev, sectors[..]);
      WindowRows(dev);
      TransferExact(rows, sectorSize, offset, |buffer|);
      code, done := WriteLoop(dev, offset, buffer);
      HasPut(Flat(rows), Bytes(dev, sectors[..]), offset, buffer, done);
    }

    method WriteLoop(dev: Device, offset: nat, buffer: seq<byte>) returns (code: int, ghost done: nat)
      requires Valid() && Sensible(dev) && offset < TOP && |buffer| < TOP
      modifies sectors
      ensures Valid() && OutsideSame(dev, old(sectors[..]), sectors[..])
      ensures if Runs(offset, |buffer|, sectorSize, |Window(dev, old(sectors[..]))|)
        then code == ToInt(|buffer|) && done == Moved(offset, |buffer|, sectorSize)
        else code < 0
      ensures done <= |buffer| && Putting(Bytes(dev, old(sectors[..])), Bytes(dev, sectors[..]), offset, buffer, done)
    {
      var start, last := Range(offset, |buffer|);
      ghost var rows0, count, flat := sectors[..], |Window(dev, sectors[..])|, Bytes(dev, sectors[..]);
      PutNothing(flat, offset, buffer);
      var n: nat := 0;
      var s := start;
      while s <= last
        invariant start <= s && n <= |buffer| && Valid() && (s == start || (s <= last + 1 && s <= count))
        invariant Reached(s, start, offset, |buffer|, n, sectorSize) && OutsideSame(dev, rows0, sectors[..])
        invariant |Window(dev, sectors[..])| == count && Putting(flat, Bytes(dev, sectors[..]), offset, buffer, n)
        decreases if s <= last then last + 1 - s else 0
      {
        code, n := WriteRound(dev, s, start, offset, buffer, n, flat);
        if code < 0 {
          LoopFailed(s, start, last, offset, |buffer|, sectorSize, count);
          return code, n;
        }
        s := s + 1;
      }
      LoopDone(s, start, last, offset, |buffer|, n, sectorSize, count);
      code, done := ToInt(|buffer|), n;
    }
  }

  lemma RoundDone(s: nat, start: nat, offset: nat, size: nat, done: nat, from: nat, to: nat, n: nat)
    requires start <= s && from <= to <= n && offset <= Times(s + 1, n) && done + (to - from) == Min(size, Times(s + 1, n) - offset)
    requires Times(start, n) <= offset < Times(start, n) + n
    ensures Reached(s + 1, start, offset, size, done + (to - from), n)
  {
    if start < s { RowsApart(start, s, n); }
  }

  /** `after` is `before` with `data` at `offset`. */
  ghost predicate Put(before: seq<byte>, after: seq<byte>, offset: nat, data: seq<byte>) {
    if data == [] then after == before else offset + |data| <= |before| && after == Patch(before, offset, data)
  }

  /** The first `done` bytes of a transfer have been put in place. */
  ghost predicate Putting(before: seq<byte>, after: seq<byte>, offset: nat, buffer: seq<byte>, done: nat) {
    done <= |buffer| && forall z {:trigger Gate(z)} :: Gate(z) ==> Put(before, after, offset, buffer[..done])
  }

  lemma PutNothing(flat: seq<byte>, offset: nat, buffer: seq<byte>)
    ensures Putting(flat, flat, offset, buffer, 0)
  {
  }

  lemma HasPut(before: seq<byte>, after: seq<byte>, offset: nat, buffer: seq<byte>, done: nat)
    requires Putting(before, after, offset, buffer, done)
    ensures done <= |buffer| && Put(before, after, offset, buffer[..done])
  {
    assert Gate(0);
  }

  /** Writing sector s with the piece of the transfer in it. */
  lemma PutMore(before: seq<byte>, rows: seq<seq<byte>>, n: nat, s: nat, from: nat, piece: seq<byte>, offset: nat, buffer: seq<byte>, done: nat)
    requires Full(rows, n) && s < |rows| && from + |piece| <= n && (piece != [] ==> Times(s, n) + from == offset + done)
    requires done + |piece| <= |buffer| && piece == buffer[done..done + |piece|]
    requires Putting(before, Flat(rows), offset, buffer, done)
    ensures Putting(before, Flat(rows[s := Patch(rows[s], from, piece)]), offset, buffer, done + |piece|)
  {
    assert Gate(0);
    if piece == [] {
      assert Patch(rows[s], from, piece) == rows[s];
      assert rows[s := rows[s]] == rows;
    } else {
      FlatPatch(rows, n, s, from, piece);
      assert buffer[..done] + piece == buffer[..done + |piece|];
      if done > 0 {
        PatchAppend(before, offset, buffer[..done], piece);
      }
    }
  }

  /** At least one byte, and no wrap-around. */
  predicate Proper(offset: nat, size: nat) {
    size > 0 && offset + size <= TOP
  }

  /** Before sector s everything up to its start has been transferred. */
  ghost predicate Reached(s: nat, start: nat, offset: nat, size: nat, done: nat, n: nat) {
    if s == start then done == 0 else offset <= Times(s, n) && done == Min(size, Times(s, n) - offset)
  }

  /** The range if it exists, an error if not. */
  ghost predicate RightRead(flat: seq<byte>, offset: nat, size: nat, code: int, buffer: seq<byte>) {
    if offset + size <= |flat| then code == size && buffer == flat[offset..offset + size] else code < 0
  }

  /** All of the buffer if there is room for it, an error if not. */
  ghost predicate RightWrite(flat: seq<byte>, offset: nat, size: nat, code: int, done: nat) {
    if offset + size <= |flat| then code == size == done else code < 0
  }

  ghost predicate Got(flat: seq<byte>, offset: nat, buffer: seq<byte>) {
    buffer != [] ==> offset + |buffer| <= |flat| && buffer == flat[offset..offset + |buffer|]
  }

  lemma ReadNothing(flat: seq<byte>, offset: nat)
    ensures Got(flat, offset, [])
  {
  }

  lemma GotMore(rows: seq<seq<byte>>, n: nat, s: nat, from: nat, to: nat, offset: nat, buffer: seq<byte>)
    requires Full(rows, n) && s < |rows| && from <= to <= n && (from < to ==> Times(s, n) + from == offset + |buffer|)
    requires Got(Flat(rows), offset, buffer)
    ensures Got(Flat(rows), offset, buffer + rows[s][from..to])
  {
    if from == to {
      assert buffer + rows[s][from..to] == buffer;
    } else {
      FlatRow(rows, n, s);
      Slice(Flat(rows), rows[s], Times(s, n), from, to);
      Join(Flat(rows), offset, buffer, rows[s][from..to]);
    }
  }

  lemma AtLeastOne(a: nat, n: nat)
    requires n > 0
    ensures a <= Times(a, n)
  {
    if a > 0 { AtLeastOne(a - 1, n); }
  }

  lemma Slice(flat: seq<byte>, row: seq<byte>, base: nat, from: nat, to: nat)
    requires from <= to <= |row| && base + |row| <= |flat| && flat[base..base + |row|] == row
    ensures flat[base + from..base + to] == row[from..to]
  {
    forall i | 0 <= i < |row| ensures flat[base + i] == row[i] {
      assert flat[base..base + |row|][i] == row[i];
    }
  }

  lemma Join(flat: seq<byte>, offset: nat, buffer: seq<byte>, piece: seq<byte>)
    requires Got(flat, offset, buffer) && offset + |buffer| + |piece| <= |flat|
    requires flat[offset + |buffer|..offset + |buffer| + |piece|] == piece
    ensures Got(flat, offset, buffer + piece)
  {
    if buffer != [] {
      assert flat[offset..offset + |buffer|] + flat[offset + |buffer|..offset + |buffer| + |piece|] == flat[offset..offset + |buffer| + |piece|];
    }
  }

  // ---------------------------------------------------------------- which transfers do what they should

  /** The last sector of the loops. */
  function Last(offset: nat, size: nat, n: nat): nat
    requires n > 0
  {
    RowOf(Unsigned(offset + size - 1), n)
  }

  /** Every sector that the loops ask for exists. */
  predicate Runs(offset: nat, size: nat, n: nat, count: nat)
    requires n > 0
  {
    Last(offset, size, n) < RowOf(offset, n) || Last(offset, size, n) < count
  }

  /** How many bytes they then transfer. */
  function Moved(offset: nat, size: nat, n: nat): nat
    requires n > 0
  {
    var last := Last(offset, size, n);
    if last < RowOf(offset, n) then 0 else if Times(last + 1, n) < offset then 0 else Min(size, Times(last + 1, n) - offset)
  }

  lemma LoopFailed(s: nat, start: nat, last: nat, offset: nat, size: nat, n: nat, count: nat)
    requires n > 0 && start == RowOf(offset, n) && last == Last(offset, size, n) && start <= s <= last && count <= s
    ensures !Runs(offset, size, n, count)
  {
  }

  lemma LoopDone(s: nat, start: nat, last: nat, offset: nat, size: nat, done: nat, n: nat, count: nat)
    requires n > 0 && start == RowOf(offset, n) && last == Last(offset, size, n) && start <= s && last < s
    requires (s == start || (s <= last + 1 && s <= count)) && Reached(s, start, offset, size, done, n)
    ensures Runs(offset, size, n, count) && done == Moved(offset, size, n)
  {
  }

  /** The range wraps around to its own first sector, which does not exist. */
  predicate NothingThere(offset: nat, size: nat, n: nat, count: nat)
    requires n > 0
  {
    Last(offset, size, n) == RowOf(offset, n) >= count
  }

  /**
   When the answer to a transfer of at least one byte is the right one: if the range exists, its size has
   to fit an `int`; if not, the range must not wrap, or its size as an `int` must look like an error.
   */
  predicate Reported(offset: nat, size: nat, total: nat) {
    if offset + size <= total then size < 0x8000_0000 else Proper(offset, size) || ToInt(size) < 0
  }

  /** The bytes of a transfer are moved rightly exactly if its range does not wrap, or wraps to a sector that does not exist. */
  lemma TransferExact(rows: seq<seq<byte>>, n: nat, offset: nat, size: nat)
    requires Full(rows, n) && 0 < n <= 4096 && |Flat(rows)| < 0x8000_0000_0000_0000
    requires offset < TOP && size < TOP
    ensures Runs(offset, size, n, |rows|) ==> Moved(offset, size, n) <= size
    ensures Proper(offset, size) ==>
      && (Runs(offset, size, n, |rows|) <==> offset + size <= |Flat(rows)|)
      && (Runs(offset, size, n, |rows|) ==> Moved(offset, size, n) == size)
    ensures size > 0 && !Proper(offset, size) ==> offset + size > |Flat(rows)| && (Runs(offset, size, n, |rows|) <==> !NothingThere(offset, size, n, |rows|))
    ensures !Proper(offset, size) && NothingThere(offset, size, n, |rows|) && size > 0 ==> ToInt(size) < 0
  {
    FlatSize(rows, n);
    var start, last := RowOf(offset, n), Last(offset, size, n);
    if Proper(offset, size) {
      if last < start { RowsApart(last, start, n); }
      if last < |rows| { Monotone(last + 1, |rows|, n); } else { Monotone(|rows|, last, n); }
    } else if size > 0 && start < last {
      RowsApart(start, last, n);
    }
  }

  lemma Monotone(i: nat, j: nat, n: nat)
    requires i <= j
    ensures Times(i, n) <= Times(j, n)
  {
    if i < j { RowsApart(i, j, n); }
  }

  lemma ReadExact(rows: seq<seq<byte>>, n: nat, offset: nat, size: nat, code: int, buffer: seq<byte>)
    requires Full(rows, n) && 0 < n <= 4096 && |Flat(rows)| < 0x8000_0000_0000_0000 && offset < TOP && size < TOP
    requires if Runs(offset, size, n, |rows|) then code == ToInt(size) else code < 0
    requires Runs(offset, size, n, |rows|) ==> |buffer| == Moved(offset, size, n) && Got(Flat(rows), offset, buffer)
    ensures size > 0 ==> (RightRead(Flat(rows), offset, size, code, buffer) <==> Reported(offset, size, |Flat(rows)|))
  {
    TransferExact(rows, n, offset, size);
  }

  lemma LaterRow(x: nat, y: nat, n: nat)
    requires 0 < n && x + n <= y
    ensures RowOf(x, n) < RowOf(y, n)
  {
    if RowOf(y, n) <= RowOf(x, n) { Monotone(RowOf(y, n), RowOf(x, n), n); }
  }

  /** A failing input: the range wraps around 2^64 and ends before it begins; nothing is moved, and success is reported for 4096 bytes. */
  lemma WrappedRange(rows: seq<seq<byte>>)
    requires Full(rows, 512) && |Flat(rows)| < 0x8000_0000_0000_0000
    ensures var offset, size := 0x1_0000_0000, 0xFFFF_FFFF_0000_1000;
      && Runs(offset, size, 512, |rows|) && Moved(offset, size, 512) == 0 && ToInt(size) == 4096
      && !Reported(offset, size, |Flat(rows)|)
  {
    assert Unsigned(0x1_0000_0000 + 0xFFFF_FFFF_0000_1000 - 1) == 4095;
    LaterRow(4095, 0x1_0000_0000, 512);
  }

  /** Two more on a disk of 4 GiB or more: all is moved, and what is returned is an error and 0. */
  lemma LargeTransfers(rows: seq<seq<byte>>)
    requires Full(rows, 512) && 0x1_0000_0000 <= |Flat(rows)| < 0x8000_0000_0000_0000
    ensures Runs(0, 0x8000_0000, 512, |rows|) && Moved(0, 0x8000_0000, 512) == 0x8000_0000 && ToInt(0x8000_0000) == -0x8000_0000
    ensures Runs(0, 0x1_0000_0000, 512, |rows|) && Moved(0, 0x1_0000_0000, 512) == 0x1_0000_0000 && ToInt(0x1_0000_0000) == 0
    ensures !Reported(0, 0x8000_0000, |Flat(rows)|) && !Reported(0, 0x1_0000_0000, |Flat(rows)|)
  {
    TransferExact(rows, 512, 0, 0x8000_0000);
    TransferExact(rows, 512, 0, 0x1_0000_0000);
  }

  /** No sector outside the window has changed. */
  ghost predicate OutsideSame(dev: Device, before: seq<seq<byte>>, after: seq<seq<byte>>) {
    && |after| == |before|
    && (dev.Part? ==> forall i :: 0 <= i < |before| && !(dev.start <= i < dev.start + dev.size) ==> after[i] == before[i])
  }
}
