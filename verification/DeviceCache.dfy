/**
 The one-block write-back cache and the undo log of the Limine BIOS installer
 (limine/limine.c), against a flat sequence of bytes.
 */
module DeviceCache {

  import opened Common
  import opened Patches

  type Byte = bv8

  /** An entry of `uninstall_data`: the bytes a write replaced. */
  datatype Saved = Saved(loc: nat, data: seq<Byte>)

  const LOG_MAX: nat := 256

  /** `after` is `before` with `data` at `loc`; an empty transfer may name any place. */
  predicate Patched(before: seq<Byte>, after: seq<Byte>, loc: nat, data: seq<Byte>) {
    if data == [] then after == before else loc + |data| <= |before| && after == Patch(before, loc, data)
  }

  /** `data` is what `bytes` holds at `loc`. */
  predicate Sliced(bytes: seq<Byte>, loc: nat, data: seq<Byte>) {
    data != [] ==> loc + |data| <= |bytes| && data == bytes[loc..loc + |data|]
  }

  lemma SlicedAppend(bytes: seq<Byte>, loc: nat, data: seq<Byte>, more: seq<Byte>)
    requires Sliced(bytes, loc, data) && more != [] && loc + |data| + |more| <= |bytes|
    requires more == bytes[loc + |data|..loc + |data| + |more|]
    ensures Sliced(bytes, loc, data + more)
  {
  }

  /** Outside `loc .. loc + count` every byte of `now` is the one of `disk` or the one of `logical`. */
  ghost predicate Outside(disk: seq<Byte>, logical: seq<Byte>, now: seq<Byte>, loc: nat, count: nat) {
    |now| == |disk| == |logical|
    && forall p :: 0 <= p < |now| && !(loc <= p < loc + count) ==> now[p] == disk[p] || now[p] == logical[p]
  }

  /** `done` bytes of a transfer of `buffer` to `loc` are over. (Opened only where `Gate` is mentioned.) */
  ghost predicate Underway(disk: seq<Byte>, logical: seq<Byte>, now: seq<Byte>, seen: seq<Byte>, loc: nat, buffer: seq<Byte>, done: nat) {
    done <= |buffer| && forall z {:trigger Gate(z)} :: Gate(z) ==>
      Patched(logical, seen, loc, buffer[..done]) && Outside(disk, logical, now, loc, |buffer|)
  }

  lemma TransferStarts(disk: seq<Byte>, logical: seq<Byte>, loc: nat, buffer: seq<Byte>)
    requires |disk| == |logical|
    ensures Underway(disk, logical, disk, logical, loc, buffer, 0)
  {
  }

  /** A flush in the middle of a transfer writes out bytes that a reader saw already. */
  lemma TransferFlushes(disk: seq<Byte>, logical: seq<Byte>, now: seq<Byte>, seen: seq<Byte>, next: seq<Byte>, loc: nat, buffer: seq<Byte>, done: nat)
    requires Underway(disk, logical, now, seen, loc, buffer, done) && (next == now || next == seen)
    ensures Underway(disk, logical, next, seen, loc, buffer, done)
  {
    assert Gate(0);
  }

  lemma TransferChunk(disk: seq<Byte>, logical: seq<Byte>, now: seq<Byte>, seen: seq<Byte>, loc: nat, buffer: seq<Byte>, done: nat, chunk: nat, next: seq<Byte>)
    requires done + chunk <= |buffer| && chunk > 0 && loc + done + chunk <= |logical| == |seen|
    requires Underway(disk, logical, now, seen, loc, buffer, done)
    requires next == Patch(seen, loc + done, buffer[done..done + chunk])
    ensures Underway(disk, logical, now, next, loc, buffer, done + chunk)
  {
    assert Gate(0);
    PatchedAppend(logical, seen, loc, buffer, done, chunk);
  }

  lemma TransferEnds(disk: seq<Byte>, logical: seq<Byte>, now: seq<Byte>, seen: seq<Byte>, loc: nat, buffer: seq<Byte>, done: nat)
    requires Underway(disk, logical, now, seen, loc, buffer, done)
    ensures Outside(disk, logical, now, loc, |buffer|)
    ensures done == |buffer| ==> Patched(logical, seen, loc, buffer)
  {
    assert Gate(0);
    assert buffer[..|buffer|] == buffer;
  }

  lemma PatchedAppend(was: seq<Byte>, now: seq<Byte>, loc: nat, buffer: seq<Byte>, done: nat, chunk: nat)
    requires done + chunk <= |buffer| && Patched(was, now, loc, buffer[..done])
    requires chunk > 0 && loc + done + chunk <= |was|
    ensures Patched(was, Patch(now, loc + done, buffer[done..done + chunk]), loc, buffer[..done + chunk])
  {
    assert buffer[..done] + buffer[done..done + chunk] == buffer[..done + chunk];
    if done > 0 { PatchAppend(was, loc, buffer[..done], buffer[done..done + chunk]); }
  }

  lemma PatchedSlice(disk: seq<Byte>, base: nat, block: seq<Byte>, offset: nat, chunk: nat)
    requires base + |block| <= |disk| && offset + chunk <= |block|
    ensures Patch(disk, base, block)[base + offset..base + offset + chunk] == block[offset..offset + chunk]
  {
  }

  /** The bytes in the blocks that the device has in full. */
  function Usable(size: nat, blockSize: nat): nat
    requires blockSize > 0
  {
    size / blockSize * blockSize
  }

  predicate Scaled(z: int) {
    true
  }

  /** Block `b` starts at `base`, and the full blocks of the device end at `usable`. (Opened only where `Scaled` is mentioned.) */
  ghost predicate StartsAt(base: nat, b: nat, bs: nat) {
    forall z {:trigger Scaled(z)} :: Scaled(z) ==> base == b * bs
  }

  ghost predicate EndsAt(usable: nat, size: nat, bs: nat)
    requires bs > 0
  {
    forall z {:trigger Scaled(z)} :: Scaled(z) ==> usable == Usable(size, bs)
  }

  lemma BlockBounds(b: nat, c: nat, bs: nat)
    requires bs > 0 && b <= c
    ensures b * bs <= c * bs && (b + 1) * bs == b * bs + bs
  {
  }

  /** The block at position `pos` is there in full exactly when `pos` is a usable byte. */
  lemma BlockAt(size: nat, bs: nat, pos: nat)
    requires bs > 0
    ensures pos / bs * bs + pos % bs == pos && pos % bs < bs && (pos / bs + 1) * bs == pos / bs * bs + bs
    ensures (pos / bs + 1) * bs <= size <==> pos < Usable(size, bs)
    ensures pos < Usable(size, bs) ==> pos / bs * bs + bs <= Usable(size, bs)
    ensures Usable(size, bs) <= size
  {
    var b, q := pos / bs, size / bs;
    DivMono(pos, pos, bs);
    DivMono(size, size, bs);
    BlockBounds(b, b, bs);
    if b < q { BlockBounds(b + 1, q, bs); } else { BlockBounds(q, b, bs); BlockBounds(q, q, bs); }
  }

  lemma MultipleOf(b: nat, bs: nat)
    requires bs > 0
    ensures b * bs / bs == b
  {
    var y := b * bs / bs;
    DivMono(b * bs, b * bs, bs);
    if y > b { BlockBounds(b + 1, y, bs); BlockBounds(b, b, bs); }
    if y < b { BlockBounds(y + 1, b, bs); BlockBounds(y, y, bs); }
  }

  lemma DivMono(a: nat, b: nat, d: nat)
    requires d > 0 && a <= b
    ensures a / d <= b / d && a / d * d + a % d == a && b / d * d + b % d == b && b % d < d
  {
    if a / d > b / d {
      BlockBounds(b / d + 1, a / d, d);
    }
  }

  /** The device, its cache block and the undo log. `cachedBlock` is `None` for the impossible block number. */
  class Device {
    const blockSize: nat
    const disk: array<Byte>
    const cache: array<Byte>
    var cachedBlock: Option<nat>
    var dirty: bool
    var uninstalling: bool
    const saved: array<Saved>
    const savedRev: array<Saved>
    var savedCount: nat
    ghost const usable: nat
    ghost var base: nat

    ghost predicate Valid()
      reads this, disk, cache
    {
      && saved.Length == savedRev.Length == LOG_MAX && saved != savedRev && savedCount <= LOG_MAX
      && {saved as object, savedRev} !! {disk as object, cache}
      && 0 < blockSize && cache.Length == blockSize && disk != cache
      && EndsAt(usable, disk.Length, blockSize) && usable <= disk.Length
      && (cachedBlock.Some? ==> StartsAt(base, cachedBlock.value, blockSize) && base + blockSize <= usable)
      && (dirty ==> cachedBlock.Some?)
      && (cachedBlock.Some? && !dirty ==>
            disk[base..base + blockSize] == cache[..])
    }

    /** The bytes that a reader sees: the disk with the cached block over it. */
    ghost function Logical(): (r: seq<Byte>)
      requires Valid()
      reads this, disk, cache
      ensures |r| == disk.Length
    {
      if cachedBlock.Some? then Patch(disk[..], base, cache[..]) else disk[..]
    }

    ghost function Log(): seq<Saved>
      requires savedCount <= saved.Length
      reads this, saved
    {
      saved[..savedCount]
    }

    /** `device_init` on a device that holds at least one block: it is left in the cache, clean. */
    constructor (disk: array<Byte>, blockSize: nat)
      requires 0 < blockSize <= disk.Length
      ensures Valid() && this.disk == disk && this.blockSize == blockSize && fresh(cache) && fresh(saved) && fresh(savedRev)
      ensures Logical() == disk[..] && Log() == [] && !uninstalling
    {
      this.disk, this.blockSize := disk, blockSize;
      cache := new Byte[blockSize](i requires 0 <= i < disk.Length reads disk => disk[i]);
      cachedBlock, dirty, uninstalling := Some(0), false, false;
      saved := new Saved[LOG_MAX](_ => Saved(0, []));
      savedRev := new Saved[LOG_MAX](_ => Saved(0, []));
      savedCount := 0;
      usable, base := Usable(disk.Length, blockSize), 0;
      new;
      BlockAt(disk.Length, blockSize, 0);
      assert disk[0..blockSize] == cache[..];
    }

    lemma CleanLogical()
      requires Valid() && !dirty
      ensures Logical() == disk[..]
    {
      if cachedBlock.Some? {
        assert forall i :: 0 <= i < blockSize ==> disk[base..base + blockSize][i] == cache[i];
      }
    }

    /** `device_flush_cache`: afterwards the disk holds what readers see. */
    method FlushCache() returns (ok: bool)
      requires Valid()
      modifies this`dirty, disk
      ensures Valid() && ok && !dirty && Logical() == old(Logical()) && disk[..] == Logical()
    {
      if !dirty { CleanLogical(); return true; }
      assert Scaled(0);
      var start := cachedBlock.value * blockSize;
      forall i | 0 <= i < blockSize { disk[start + i] := cache[i]; }
      dirty := false;
      ok := true;
    }

    /** `device_cache_block`: fails exactly for a block the device does not have in full. */
    method CacheBlock(block: nat) returns (ok: bool)
      requires Valid()
      modifies this`cachedBlock, this`dirty, this`base, disk, cache
      ensures Valid() && Logical() == old(Logical()) && (disk[..] == old(disk[..]) || disk[..] == Logical())
      ensures ok <==> block * blockSize + blockSize <= usable
      ensures ok ==> cachedBlock == Some(block) && base == block * blockSize
    {
      assert Scaled(0);
      if cachedBlock == Some(block) { return true; }
      if !dirty { CleanLogical(); }
      if dirty {
        var flushed := FlushCache();
      }
      cachedBlock := None;
      BlockAt(disk.Length, blockSize, block * blockSize);
      MultipleOf(block, blockSize);
      if block * blockSize + blockSize > disk.Length { return false; }
      Load(block);
      ok := true;
    }

    /** Reads a block of the disk into the cache. */
    method Load(block: nat)
      requires Valid() && cachedBlock.None? && block * blockSize + blockSize <= usable
      modifies this`cachedBlock, this`base, cache
      ensures Valid() && cachedBlock == Some(block) && base == block * blockSize
      ensures !dirty && disk[..] == old(disk[..]) && Logical() == disk[..]
    {
      var start := block * blockSize;
      base := start;
      forall i | 0 <= i < blockSize { cache[i] := disk[start + i]; }
      cachedBlock := Some(block);
      assert disk[start..start + blockSize] == cache[..];
    }

    /** The head of both transfer loops: caches the block at `pos` and sizes the chunk. */
    method Seek(pos: nat, left: nat) returns (ok: bool, offset: nat, chunk: nat)
      requires Valid() && left > 0
      modifies this`cachedBlock, this`dirty, this`base, disk, cache
      ensures Valid() && Logical() == old(Logical()) && (disk[..] == old(disk[..]) || disk[..] == Logical())
      ensures ok <==> pos < usable
      ensures ok ==> && cachedBlock.Some? && base + offset == pos && 0 < chunk <= left
                     && chunk == (if left > blockSize - offset then blockSize - offset else left)
    {
      assert Scaled(0);
      BlockAt(disk.Length, blockSize, pos);
      var block := pos / blockSize;
      ok := CacheBlock(block);
      chunk := left;
      offset := pos % blockSize;
      if chunk > blockSize - offset { chunk := blockSize - offset; }
    }

    /** One iteration of the read loop. */
    method ReadChunk(pos: nat, left: nat) returns (ok: bool, piece: seq<Byte>)
      requires Valid() && left > 0
      modifies this`cachedBlock, this`dirty, this`base, disk, cache
      ensures Valid() && Logical() == old(Logical()) && (disk[..] == old(disk[..]) || disk[..] == Logical())
      ensures ok <==> pos < usable
      ensures ok ==> 0 < |piece| <= left && pos + |piece| <= usable && piece == Logical()[pos..pos + |piece|]
    {
      var offset, chunk;
      ok, offset, chunk := Seek(pos, left);
      if !ok { return ok, []; }
      PatchedSlice(disk[..], base, cache[..], offset, chunk);
      piece := cache[offset..offset + chunk];
    }

    /** `device_read_raw`: exactly the logical bytes, or failure when some block is missing. */
    method ReadRaw(loc: nat, count: nat) returns (ok: bool, buffer: seq<Byte>)
      requires Valid()
      modifies this`cachedBlock, this`dirty, this`base, disk, cache
      ensures Valid() && Logical() == old(Logical()) && (disk[..] == old(disk[..]) || disk[..] == Logical())
      ensures ok <==> count == 0 || loc + count <= usable
      ensures ok ==> Sliced(Logical(), loc, buffer) && |buffer| == count
    {
      ghost var disk0, seen := disk[..], Logical();
      buffer := [];
      ok := true;
      while |buffer| < count
        invariant |buffer| <= count && Valid() && Logical() == seen
        invariant disk[..] == disk0 || disk[..] == seen
        invariant buffer != [] ==> loc + |buffer| <= usable
        invariant Sliced(seen, loc, buffer)
        decreases count - |buffer|
      {
        var piece;
        ok, piece := ReadChunk(loc + |buffer|, count - |buffer|);
        if !ok { return; }
        SlicedAppend(seen, loc, buffer, piece);
        buffer := buffer + piece;
      }
    }

    /** The copy into the cached block. */
    method CopyIn(data: seq<Byte>, offset: nat, ghost seen: seq<Byte>)
      requires Valid() && cachedBlock.Some? && offset + |data| <= blockSize && seen == Logical()
      modifies this`dirty, cache
      ensures Valid() && dirty && disk[..] == old(disk[..])
      ensures Logical() == Patch(seen, base + offset, data)
    {
      PatchNested(disk[..], base, cache[..], offset, data);
      ghost var was := cache[..];
      forall i | 0 <= i < |data| { cache[offset + i] := data[i]; }
      dirty := true;
      assert cache[..] == Patch(was, offset, data);
    }

    /** One iteration of the write loop. */
    method WriteChunk(buffer: seq<Byte>, progress: nat, loc: nat, ghost seen: seq<Byte>) returns (ok: bool, chunk: nat)
      requires Valid() && progress < |buffer| && seen == Logical()
      modifies this`cachedBlock, this`dirty, this`base, disk, cache
      ensures Valid() && (disk[..] == old(disk[..]) || disk[..] == seen)
      ensures ok <==> loc + progress < usable
      ensures !ok ==> Logical() == seen
      ensures ok ==> && 0 < chunk <= |buffer| - progress && loc + progress + chunk <= usable
                     && Logical() == Patch(seen, loc + progress, buffer[progress..progress + chunk])
    {
      var offset;
      ok, offset, chunk := Seek(loc + progress, |buffer| - progress);
      if !ok { return; }
      CopyIn(buffer[progress..progress + chunk], offset, seen);
    }

    method WriteStep(buffer: seq<Byte>, progress: nat, loc: nat, ghost disk0: seq<Byte>, ghost logical0: seq<Byte>) returns (ok: bool, chunk: nat)
      requires Valid() && progress < |buffer| && |logical0| == disk.Length
      requires Underway(disk0, logical0, disk[..], Logical(), loc, buffer, progress)
      modifies this`cachedBlock, this`dirty, this`base, disk, cache
      ensures Valid() && (ok <==> loc + progress < usable)
      ensures ok ==> 0 < chunk <= |buffer| - progress && loc + progress + chunk <= usable
      ensures var done := if ok then progress + chunk else progress;
              Underway(disk0, logical0, disk[..], Logical(), loc, buffer, done)
    {
      ghost var seen, now := Logical(), disk[..];
      ok, chunk := WriteChunk(buffer, progress, loc, seen);
      TransferFlushes(disk0, logical0, now, seen, disk[..], loc, buffer, progress);
      if ok { TransferChunk(disk0, logical0, disk[..], seen, loc, buffer, progress, chunk, Logical()); }
    }

    /** The transfer loop of `device_write_raw`. */
    method WriteChunks(buffer: seq<Byte>, loc: nat) returns (ok: bool)
      requires Valid()
      modifies this`cachedBlock, this`dirty, this`base, disk, cache
      ensures Valid() && (ok <==> buffer == [] || loc + |buffer| <= usable)
      ensures ok ==> Patched(old(Logical()), Logical(), loc, buffer)
      ensures Outside(old(disk[..]), old(Logical()), disk[..], loc, |buffer|)
    {
      ghost var disk0, logical0 := disk[..], Logical();
      ok := true;
      var progress := 0;
      TransferStarts(disk0, logical0, loc, buffer);
      while progress < |buffer|
        invariant progress <= |buffer| && Valid() && (progress > 0 ==> loc + progress <= usable)
        invariant Underway(disk0, logical0, disk[..], Logical(), loc, buffer, progress)
      {
        var chunk;
        ok, chunk := WriteStep(buffer, progress, loc, disk0, logical0);
        if !ok { break; }
        progress := progress + chunk;
      }
      TransferEnds(disk0, logical0, disk[..], Logical(), loc, buffer, progress);
    }

    /** Fills the next log entry, which `CommitEntry` will count. */
    method SaveEntry(loc: nat, data: seq<Byte>)
      requires Valid() && savedCount < LOG_MAX
      modifies saved
      ensures Valid() && Logical() == old(Logical()) && Log() == old(Log()) && saved[savedCount] == Saved(loc, data)
    {
      saved[savedCount] := Saved(loc, data);
      assert saved[..savedCount] == old(saved[..savedCount]);
    }

    method CommitEntry()
      requires Valid() && savedCount < LOG_MAX
      modifies this`savedCount
      ensures Valid() && Logical() == old(Logical()) && Log() == old(Log()) + [saved[old(savedCount)]]
    {
      savedCount := savedCount + 1;
    }

    /** `device_write_raw` while undoing an installation. */
    method WriteBack(buffer: seq<Byte>, loc: nat) returns (ok: bool)
      requires Valid() && uninstalling
      modifies this`cachedBlock, this`dirty, this`base, disk, cache
      ensures Valid() && (ok <==> buffer == [] || loc + |buffer| <= usable)
      ensures ok ==> Patched(old(Logical()), Logical(), loc, buffer)
    {
      ok := WriteChunks(buffer, loc);
    }

    /** `device_write_raw` while installing: the bytes about to be replaced are logged first. */
    method WriteRaw(buffer: seq<Byte>, loc: nat) returns (ok: bool, kept: seq<Byte>)
      requires Valid() && !uninstalling
      modifies this`cachedBlock, this`dirty, this`base, this`savedCount, disk, cache, saved
      ensures Valid() && (ok <==> old(savedCount) < LOG_MAX && (buffer == [] || loc + |buffer| <= usable))
      ensures Outside(old(disk[..]), old(Logical()), disk[..], loc, |buffer|)
      ensures !ok ==> Logical() == old(Logical()) && (disk[..] == old(disk[..]) || disk[..] == Logical()) && Log() == old(Log())
      ensures ok ==> |kept| == |buffer| && Sliced(old(Logical()), loc, kept) && Log() == old(Log()) + [Saved(loc, kept)]
      ensures ok ==> Patched(old(Logical()), Logical(), loc, buffer)
    {
      kept := [];
      if savedCount >= LOG_MAX { return false, kept; }
      ok, kept := ReadRaw(loc, |buffer|);
      if !ok { return; }
      SaveEntry(loc, kept);
      ok := WriteChunks(buffer, loc);
      CommitEntry();
    }
  }
}
