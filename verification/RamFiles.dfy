/**
 Regular files of the memory file system (kernel/fs/ramfs.c): linked chains of blocks that behave as
 one sequence of bytes.
 */
module RamFiles {

  import opened Common
  import opened Patches
  import opened Rows
  import TailRing

  type byte = bv8

  // ---------------------------------------------------------------- stores: the blocks of a file, by value

  /** RAMFS_BLOCK_SIZE: a page less a pointer. */
  const BLOCK: nat := 4088

  lemma StoreSize(store: seq<seq<byte>>)
    requires Full(store, BLOCK)
    ensures |Flat(store)| == BLOCK * |store|
  {
    FlatSize(store, BLOCK);
    TimesIsProduct(|store|, BLOCK);
  }

  lemma StoreBlock(store: seq<seq<byte>>, k: nat)
    requires Full(store, BLOCK) && k < |store|
    ensures BLOCK * k + BLOCK <= |Flat(store)| && Flat(store)[BLOCK * k..BLOCK * k + BLOCK] == store[k]
  {
    FlatRow(store, BLOCK, k);
    TimesIsProduct(k, BLOCK);
  }

  lemma StorePatch(store: seq<seq<byte>>, k: nat, from: nat, piece: seq<byte>)
    requires Full(store, BLOCK) && k < |store| && from + |piece| <= BLOCK
    ensures Full(store[k := Patch(store[k], from, piece)], BLOCK)
    ensures BLOCK * k + from + |piece| <= |Flat(store)|
    ensures Flat(store[k := Patch(store[k], from, piece)]) == Patch(Flat(store), BLOCK * k + from, piece)
  {
    FlatPatch(store, BLOCK, k, from, piece);
    TimesIsProduct(k, BLOCK);
  }

  lemma StorePrefix(store: seq<seq<byte>>, k: nat)
    requires Full(store, BLOCK) && k <= |store|
    ensures BLOCK * k <= |Flat(store)| && Flat(store)[..BLOCK * k] == Flat(store[..k])
  {
    FlatPrefix(store, BLOCK, k);
    TimesIsProduct(k, BLOCK);
  }

  /** Blank blocks are added at the end until there are n. */
  ghost function Grow(store: seq<seq<byte>>, n: nat): (r: seq<seq<byte>>)
    ensures |r| == (if |store| >= n then |store| else n) && r[..|store|] == store
    ensures Full(store, BLOCK) ==> Full(r, BLOCK)
  {
    store + Fill(if |store| >= n then 0 else n - |store|, Fill(BLOCK, 0))
  }

  lemma GrowOne(store: seq<seq<byte>>, n: nat)
    requires |store| <= n
    ensures Grow(store, n + 1) == Grow(store, n) + [Fill(BLOCK, 0)]
  {
  }

  // ---------------------------------------------------------------- linked blocks

  class Block {
    var data: seq<byte>
    var next: Block?

    /** A block from `kmalloc`, which clears it. */
    constructor ()
      ensures data == Fill(BLOCK, 0) && next == null
    {
      data, next := Fill(BLOCK, 0), null;
    }
  }

  function At(chain: seq<Block>, i: nat): Block? {
    if i < |chain| then chain[i] else null
  }

  ghost predicate Chained(chain: seq<Block>, store: seq<seq<byte>>)
    reads chain
  {
    && |store| == |chain| && Full(store, BLOCK)
    && (forall i, j :: 0 <= i < j < |chain| ==> chain[i] != chain[j])
    && forall i :: 0 <= i < |chain| ==> chain[i].data == store[i] && chain[i].next == At(chain, i + 1)
  }

  ghost predicate Held(chain: seq<Block>, store: seq<seq<byte>>, repr: set<Block>)
    reads chain
  {
    Chained(chain, store) && forall i :: 0 <= i < |chain| ==> chain[i] in repr
  }

  lemma ChainedPush(chain: seq<Block>, store: seq<seq<byte>>, repr: set<Block>, b: Block)
    requires |store| == |chain| > 0 && Full(store, BLOCK) && b !in chain && b.next == null && b.data == Fill(BLOCK, 0)
    requires forall i, j :: 0 <= i < j < |chain| ==> chain[i] != chain[j]
    requires forall i :: 0 <= i < |chain| ==> chain[i].data == store[i]
    requires forall i :: 0 <= i < |chain| - 1 ==> chain[i].next == At(chain, i + 1)
    requires chain[|chain| - 1].next == b && forall i :: 0 <= i < |chain| ==> chain[i] in repr
    ensures Held(chain + [b], store + [Fill(BLOCK, 0)], repr + {b})
  {
    var after, store' := chain + [b], store + [Fill(BLOCK, 0)];
    forall i | 0 <= i < |after| ensures after[i].data == store'[i] && after[i].next == At(after, i + 1) {
      if i < |chain| { assert after[i] == chain[i]; }
    }
  }

  lemma ChainedTake(chain: seq<Block>, store: seq<seq<byte>>, repr: set<Block>, n: nat)
    requires |store| == |chain| && n <= |chain| && Full(store, BLOCK)
    requires forall i, j :: 0 <= i < j < |chain| ==> chain[i] != chain[j]
    requires forall i :: 0 <= i < n ==> chain[i].data == store[i]
    requires forall i :: 0 <= i < n - 1 ==> chain[i].next == At(chain, i + 1)
    requires n > 0 ==> chain[n - 1].next == null
    requires forall i :: 0 <= i < |chain| ==> chain[i] in repr
    ensures Held(chain[..n], store[..n], repr)
  {
    forall i | 0 <= i < n ensures chain[..n][i].data == store[..n][i] && chain[..n][i].next == At(chain[..n], i + 1) {
      assert chain[..n][i] == chain[i];
    }
  }

  class File {
    ghost const room: nat
    /** How many more blocks the kernel heap has for this file; `kmalloc` panics for want of more. */
    var spare: nat
    var first: Block?
    var size: nat
    ghost var chain: seq<Block>
    ghost var store: seq<seq<byte>>
    /** The blocks that the file's methods may change. */
    ghost var repr: set<Block>

    ghost predicate Woven()
      reads this, chain
    {
      && first == At(chain, 0) && |store| == |chain|
      && forall z {:trigger Gate(z)} :: Gate(z) ==> Held(chain, store, repr)
    }

    /** Blocks are pages of the kernel heap, which has fewer than 2^19 of them. */
    ghost predicate Fit()
      reads this, chain
    {
      Woven() && |chain| + spare == room < 0x8_0000
    }

    /** Every state of a file: there are enough blocks for the size, or the size is one whose block count wraps. */
    ghost predicate Sound()
      reads this, chain
    {
      Fit() && size < TOP && (size <= BLOCK * |chain| || Wraps(size))
    }

    /** There are enough blocks for the size. */
    ghost predicate Valid()
      reads this, chain
    {
      Sound() && size <= BLOCK * |chain|
    }

    /** The contents of the file. */
    ghost function Bytes(): seq<byte>
      reads this
    {
      if size <= |Flat(store)| then Flat(store)[..size] else []
    }

    constructor (room: nat)
      requires room < 0x8_0000
      ensures Valid() && Bytes() == [] && chain == [] && repr == {} && this.room == room
    {
      this.room, spare := room, room;
      first, size, chain, store, repr := null, 0, [], [], {};
    }

    lemma Pointer(k: nat)
      requires Woven() && k < |chain|
      ensures chain[k] in repr && chain[k].next == At(chain, k + 1) && chain[k].data == store[k] && |store[k]| == BLOCK
    {
      assert Gate(0);
    }

    lemma Sizes()
      requires Woven()
      ensures Full(store, BLOCK) && |Flat(store)| == BLOCK * |chain|
    {
      assert Gate(0);
      StoreSize(store);
    }

    /** Whatever blocks the file has got are new. */
    twostate predicate Extended()
      reads this
    {
      fresh(repr - old(repr))
    }

    /** A new block behind the last one, unless the heap is full. */
    method Append(last: Block) returns (ok: bool)
      requires Fit() && chain != [] && last == chain[|chain| - 1]
      modifies this`chain, this`store, this`repr, this`spare, last`next
      ensures Fit() && Extended() && (ok <==> old(spare) > 0)
      ensures !ok ==> chain == old(chain) && store == old(store) && spare == 0
      ensures ok ==> store == old(store) + [Fill(BLOCK, 0)]
      ensures ok ==> fresh(chain[|chain| - 1]) && |chain| == |old(chain)| + 1 && chain[|chain| - 2] == last
    {
      if spare == 0 { return false; }
      var b := new Block();
      Link(last, b);
      Add(b);
      ok := true;
    }

    method Add(b: Block)
      requires first == At(chain, 0) && |store| == |chain| > 0 && |chain| + spare == room < 0x8_0000 && spare > 0
      requires Held(chain + [b], store + [Fill(BLOCK, 0)], repr + {b})
      modifies this`chain, this`store, this`repr, this`spare
      ensures Fit() && chain == old(chain) + [b] && store == old(store) + [Fill(BLOCK, 0)] && repr == old(repr) + {b}
    {
      chain, store, repr, spare := chain + [b], store + [Fill(BLOCK, 0)], repr + {b}, spare - 1;
    }

    method Link(last: Block, b: Block)
      requires Woven() && chain != [] && last == chain[|chain| - 1] && b !in chain && b.next == null && b.data == Fill(BLOCK, 0)
      modifies last`next
      ensures Held(chain + [b], store + [Fill(BLOCK, 0)], repr + {b})
    {
      assert Gate(0);
      last.next := b;
      ChainedPush(chain, store, repr, b);
    }

    // -------------------------------------------------------------- reading

    /** `ramfs_read` for all arguments; None is a null pointer followed. */
    method Read(offset: nat, count: nat) returns (r: Option<seq<byte>>)
      requires Sound() && offset < TOP && count < TOP
      ensures r.None? <==> offset < size && offset / BLOCK > |chain|
      ensures r.Some? ==> r.value == if offset >= size then [] else Slice(Flat(store), offset, Clipped(size, offset, count))
      ensures Valid() && offset < size ==> r.Some? && |Bytes()| == size
      ensures Valid() && offset < size ==>
        (r.value == Bytes()[offset..offset + Min(count, size - offset)] <==> offset + count < TOP || size == BLOCK * |chain|)
    {
      r := ReadAny(offset, count);
      Sizes();
      if Valid() && offset < size {
        ghost var flat := Flat(store);
        assert |flat| == BLOCK * |chain| && Bytes() == flat[..size];
        ReadExact(flat, size, offset, count, r.value);
      }
    }

    method ReadAny(offset: nat, count: nat) returns (r: Option<seq<byte>>)
      requires Sound() && offset < TOP && count < TOP
      ensures r.None? <==> offset < size && offset / BLOCK > |chain|
      ensures r.Some? ==> r.value == if offset >= size then [] else Slice(Flat(store), offset, Clipped(size, offset, count))
    {
      if offset >= size { return Some([]); }
      var n := if Unsigned(offset + count) > size then size - offset else count;
      var current;
      r, current := None, None;
      current := Skip(offset / BLOCK);
      if current.Some? {
        var bytes := ReadFrom(current.value, offset, n);
        r := Some(bytes);
      }
    }

    /** Its loop. */
    method ReadFrom(first': Block?, offset: nat, n: nat) returns (r: seq<byte>)
      requires Fit() && offset / BLOCK <= |chain| && first' == At(chain, offset / BLOCK)
      ensures r == Slice(Flat(store), offset, n)
    {
      Sizes();
      var current := first';
      r := [];
      var from: nat := offset % BLOCK;
      ghost var k: nat := offset / BLOCK;
      ghost var flat := Flat(store);
      while |r| < n && current != null
        invariant k <= |chain| && current == At(chain, k) && |r| <= n && from < BLOCK
        invariant |r| < n ==> BLOCK * k + from == offset + |r| && (from == 0 || r == [])
        invariant Copied(flat, offset, r)
        decreases n - |r|
      {
        Pointer(k);
        var some := Min(BLOCK - from, n - |r|);
        StoreBlock(store, k);
        Piece(flat, store[k], BLOCK * k, from, offset, r, some);
        r := r + current.data[from..from + some];
        from := 0;
        k := k + 1;
        current := current.next;
      }
      CopiedAll(flat, offset, r);
      assert |r| == n || offset + |r| >= |flat|;
    }

    /** Following the chain over `n` blocks. */
    method Skip(n: nat) returns (r: Option<Block?>)
      requires Fit()
      ensures r == if n <= |chain| then Some(At(chain, n)) else None
    {
      var current := first;
      for i := 0 to n
        invariant i <= |chain| && current == At(chain, i)
      {
        if current == null { return None; }
        Pointer(i);
        current := current.next;
      }
      r := Some(current);
    }

    // -------------------------------------------------------------- writing

    /** The next block, made if there is none. */
    method NextOrNew(current: Block, ghost k: nat) returns (next: Option<Block>)
      requires Fit() && k < |chain| && chain[k] == current
      modifies this`chain, this`store, this`repr, this`spare, current`next
      ensures Fit() && Extended()
      ensures next.None? ==> spare == 0 && k + 2 > room
      ensures next.Some? ==> k + 1 < |chain| && next.value == chain[k + 1] && store == Grow(old(store), k + 2)
    {
      Pointer(k);
      if current.next == null {
        var ok := Append(current);
        if !ok { return None; }
        GrowOne(old(store), k + 1);
        Pointer(k);
      }
      next := Some(current.next);
    }

    /** Overwriting a part of one block with the next `n` bytes of the transfer. */
    method WriteBlock(current: Block, ghost k: nat, from: nat, ghost store0: seq<seq<byte>>, ghost offset: nat, buffer: seq<byte>, done: nat, n: nat)
      requires Fit() && k < |chain| && chain[k] == current && from + n <= BLOCK && BLOCK * k + from == offset + done
      requires done + n <= |buffer| && Wrote(store0, store, offset, buffer, done)
      modifies this`store, current`data
      ensures Fit() && |store| == |old(store)| && Wrote(store0, store, offset, buffer, done + n)
    {
      var piece := buffer[done..done + n];
      BlockWritten(store0, store, k, from, offset, buffer, done, piece);
      Pointer(k);
      assert Gate(0);
      store := store[k := Patch(store[k], from, piece)];
      current.data := Patch(current.data, from, piece);
    }

    /** A first block, made if there is none. */
    method EnsureFirst() returns (ok: bool)
      requires Fit()
      modifies this`first, this`chain, this`store, this`repr, this`spare
      ensures Fit() && Extended()
      ensures !ok ==> spare == 0 == room
      ensures ok ==> first != null && store == Grow(old(store), 1)
    {
      ok := true;
      if first == null {
        if spare == 0 { return false; }
        var b := new Block();
        assert Chained([b], [Fill(BLOCK, 0)]);
        first, chain, store, repr, spare := b, [b], [Fill(BLOCK, 0)], repr + {b}, spare - 1;
      }
    }

    /** The blocks before the first one written, made if there are none. */
    method Reach(n: nat) returns (r: Option<Block>)
      requires Fit()
      modifies this`first, this`chain, this`store, this`repr, this`spare, repr
      ensures Fit() && Extended()
      ensures r.None? ==> spare == 0 && n + 1 > room
      ensures r.Some? ==> n < |chain| && r.value == chain[n] && store == Grow(old(store), n + 1)
    {
      var ok := EnsureFirst();
      if !ok { return None; }
      var current := first;
      for i := 0 to n
        invariant Fit() && Extended() && i < |chain| && current == chain[i]
        invariant store == Grow(old(store), i + 1)
      {
        Pointer(i);
        var next := NextOrNew(current, i);
        if next.None? { return None; }
        current := next.value;
      }
      r := Some(current);
    }

    /** One round of the loop of `ramfs_write`. */
    method WriteRound(current: Block, ghost k: nat, from: nat, ghost store0: seq<seq<byte>>, ghost offset: nat, buffer: seq<byte>, done: nat)
      returns (next: Option<Block>, done': nat)
      requires Fit() && k < |chain| && chain[k] == current && from < BLOCK && BLOCK * k + from == offset + done
      requires done < |buffer| && Wrote(store0, store, offset, buffer, done)
      modifies this`chain, this`store, this`repr, this`spare, current
      ensures Fit() && Extended()
      ensures next.None? ==> spare == 0 && k + 2 > room
      ensures done < done' <= |buffer| && (done' == |buffer| || done' == done + BLOCK - from) && done' <= done + BLOCK - from
      ensures next.Some? ==> k + 1 < |chain| && next.value == chain[k + 1] && Wrote(store0, store, offset, buffer, done')
    {
      var n := Min(BLOCK - from, |buffer| - done);
      done' := done + n;
      WriteBlock(current, k, from, store0, offset, buffer, done, n);
      ghost var store2 := store;
      next := NextOrNew(current, k);
      if next.Some? { WroteGrow(store0, store2, offset, buffer, done', k + 2); }
    }

    /** The loop of `ramfs_write`. */
    method WriteFrom(first': Block, ghost k0: nat, from0: nat, ghost store0: seq<seq<byte>>, ghost offset: nat, buffer: seq<byte>) returns (ok: bool)
      requires Fit() && k0 < |chain| && first' == chain[k0] && from0 < BLOCK && BLOCK * k0 + from0 == offset
      requires Wrote(store0, store, offset, buffer, 0)
      modifies this`chain, this`store, this`repr, this`spare, repr
      ensures Fit() && Extended()
      ensures !ok ==> spare == 0 && buffer != [] && offset + |buffer| > BLOCK * (room - 1)
      ensures ok ==> Wrote(store0, store, offset, buffer, |buffer|) && (buffer != [] ==> offset + |buffer| <= BLOCK * (|chain| - 1))
    {
      var current: Block, from: nat, n: nat := first', from0, 0;
      ghost var k: nat := k0;
      while n < |buffer|
        invariant Fit() && Extended() && k < |chain| && current == chain[k] && from < BLOCK && n <= |buffer|
        invariant BLOCK * k + from >= offset + n && (n < |buffer| ==> BLOCK * k + from == offset + n) && (n > 0 ==> from == 0)
        invariant Wrote(store0, store, offset, buffer, n)
      {
        Pointer(k);
        var next;
        next, n := WriteRound(current, k, from, store0, offset, buffer, n);
        if next.None? { return false; }
        current, from, k := next.value, 0, k + 1;
      }
      ok := true;
    }

    /**
     `ramfs_write`: the blocks there were, and blank ones behind them, overwritten at `offset`. None is
     the panic of `kmalloc`.
     */
    method Write(offset: nat, buffer: seq<byte>) returns (n: Option<nat>)
      requires Sound() && offset < TOP && |buffer| < TOP
      modifies this, repr
      ensures Sound() && Extended()
      ensures n.None? ==> spare == 0
      ensures n.None? <==> if buffer == [] then offset / BLOCK >= room else offset + |buffer| > BLOCK * (room - 1)
      ensures n.Some? ==> n.value == |buffer| && Wrote(old(store), store, offset, buffer, |buffer|)
      ensures n.Some? ==> size == (if old(size) < offset + |buffer| then offset + |buffer| else old(size)) && (old(Valid()) ==> Valid())
      ensures n.Some? && old(Valid()) ==> Overwritten(old(Bytes()), Bytes(), offset, buffer)
    {
      Sizes();
      ghost var store0, size0 := store, size;
      var ok := Overwrite(offset, buffer);
      if !ok { return None; }
      WroteLonger(store0, store, offset, buffer);
      var end := Unsigned(offset + |buffer|);
      if size < end { size := end; }
      n := Some(|buffer|);
      if old(Valid()) { WriteOverwrites(store0, store, size0, offset, buffer); }
    }

    /** Its part on the blocks. */
    method Overwrite(offset: nat, buffer: seq<byte>) returns (ok: bool)
      requires Fit()
      modifies this`first, this`chain, this`store, this`repr, this`spare, repr
      ensures Fit() && Extended() && (!ok ==> spare == 0)
      ensures !ok <==> if buffer == [] then offset / BLOCK >= room else offset + |buffer| > BLOCK * (room - 1)
      ensures ok ==> Wrote(old(store), store, offset, buffer, |buffer|)
    {
      Sizes();
      ghost var store0 := store;
      var current := Reach(offset / BLOCK);
      if current.None? {
        NoRoomFor(offset, room);
        return false;
      }
      WroteNothing(store0, store, offset, buffer);
      ok := WriteFrom(current.value, offset / BLOCK, offset % BLOCK, store0, offset, buffer);
    }

    // -------------------------------------------------------------- truncating

    /** The last block, for a chain that is not empty. */
    method Last() returns (last: Block)
      requires Fit() && first != null
      ensures chain != [] && last == chain[|chain| - 1] && last in repr
    {
      last := first;
      ghost var k := 0;
      while last.next != null
        invariant k < |chain| && last == chain[k]
        decreases |chain| - k
      {
        Pointer(k);
        last := last.next;
        k := k + 1;
      }
      Pointer(k);
    }

    /** Its loop that appends blank blocks. */
    method AppendMany(last0: Block, n: nat) returns (ok: bool)
      requires Fit() && chain != [] && last0 == chain[|chain| - 1]
      modifies this`chain, this`store, this`repr, this`spare, last0`next
      ensures Fit() && Extended()
      ensures !ok ==> spare == 0 && |old(chain)| + n > room
      ensures ok ==> store == Grow(old(store), |old(store)| + n)
    {
      var last := last0;
      for i := 0 to n
        invariant Fit() && Extended() && chain != [] && last == chain[|chain| - 1] && (last == last0 || fresh(last))
        invariant store == Grow(old(store), |old(store)| + i)
      {
        ok := Append(last);
        if !ok { return; }
        GrowOne(old(store), |old(store)| + i);
        Pointer(|chain| - 2);
        last := last.next;
      }
      ok := true;
    }

    /** The growing branch of `ramfs_truncate`. */
    method Lengthen(difference: nat) returns (ok: bool)
      requires Fit() && difference > 0
      modifies this`first, this`chain, this`store, this`repr, this`spare, repr
      ensures Fit() && Extended()
      ensures !ok ==> spare == 0 && |old(chain)| + difference > room
      ensures ok ==> store == Grow(old(store), |old(store)| + difference)
    {
      var todo := difference;
      if first == null {
        todo := todo - 1;
        ok := EnsureFirst();
        if !ok { return; }
      }
      var last := Last();
      ok := AppendMany(last, todo);
    }

    /** The ring of the shrinking branch after the walk to the end of the chain. */
    method FindTail(difference: nat) returns (slots: array<Block?>, head: nat)
      requires Fit() && first != null
      ensures fresh(slots) && slots.Length == difference + 1 && chain != []
      ensures TailRing.Tail<Block?>(slots[..], head, chain, |chain| - 1, null)
    {
      slots := new Block?[difference + 1](_ => null);
      slots[0] := first;
      head := 0;
      ghost var m := 0;
      TailRing.Start<Block?>(slots[..], chain, null);
      while true
        invariant m < |chain| && TailRing.Tail<Block?>(slots[..], head, chain, m, null)
        decreases |chain| - m
      {
        TailRing.Behind<Block?>(slots[..], head, chain, m, null, 0);
        Pointer(m);
        if slots[head].next == null { break; }
        var oldHead := head;
        TailRing.Push<Block?>(slots[..], head, chain, m, null);
        head := TailRing.StepOn(head, difference);
        slots[head] := slots[oldHead].next;
        m := m + 1;
      }
    }

    /** Ending the chain at `newEnd`, null when no block is kept. */
    method EndAt(newEnd: Block?, ghost n: nat)
      requires Woven() && n <= |chain| && newEnd == if n == 0 then null else chain[n - 1]
      modifies this`first, this`chain, this`store, if newEnd == null then {} else {newEnd}
      ensures Woven() && chain == old(chain)[..n] && store == old(store)[..n]
    {
      if newEnd == null {
        first, chain, store := null, chain[..n], store[..n];
        return;
      }
      assert Gate(0);
      newEnd.next := null;
      forall i | 0 <= i < n - 1 ensures chain[i].next == At(chain, i + 1) {
        assert chain[i] != chain[n - 1];
      }
      ChainedTake(chain, store, repr, n);
      chain, store := chain[..n], store[..n];
    }

    method ClearEnd(b: Block, r: nat)
      requires Woven() && chain != [] && b == chain[|chain| - 1] && 0 < r < BLOCK
      modifies this`store, b`data
      ensures Woven() && store == Cut(old(store), |chain|, r)
    {
      assert Gate(0);
      b.data := b.data[..r] + Fill(BLOCK - r, 0);
      store := Cut(store, |chain|, r);
    }

    /** The shrinking branch of `ramfs_truncate`; `freed` are the blocks given to `kfree`. */
    method Shorten(difference: nat, r: nat, ghost n: nat) returns (ghost freed: seq<Block?>)
      requires Fit() && difference > 0 && n + difference == |chain| && r < BLOCK
      modifies this`first, this`chain, this`store, this`repr, this`spare, repr
      ensures Fit() && repr == old(repr) && chain == old(chain)[..n] && store == Cut(old(store), n, r)
      ensures freed == old(chain)[n..]
    {
      ghost var chain0 := chain;
      var slots, head := FindTail(difference);
      TailRing.Oldest<Block?>(slots[..], head, chain, |chain| - 1, null);
      var end := TailRing.StepOn(head, difference);
      var newEnd := slots[end];
      if n > 0 { Pointer(n - 1); }
      EndAt(newEnd, n);
      if newEnd != null && r != 0 {
        ClearEnd(newEnd, r);
      }
      freed := FreeAll(slots, head, chain0);
    }

    /** The last loop of `ramfs_truncate`. */
    method FreeAll(slots: array<Block?>, last: nat, ghost chain0: seq<Block>) returns (ghost freed: seq<Block?>)
      requires chain0 != [] && 0 < slots.Length <= |chain0| + 1 && TailRing.Tail<Block?>(slots[..], last, chain0, |chain0| - 1, null)
      modifies this`spare
      ensures freed == chain0[|chain0| - (slots.Length - 1)..] && spare == old(spare) + |freed|
    {
      freed := [];
      var head, difference := last, slots.Length - 1;
      for i := 0 to difference
        invariant head == TailRing.Back(last, i, difference + 1)
        invariant freed == chain0[|chain0| - i..] && spare == old(spare) + i
      {
        TailRing.Behind<Block?>(slots[..], last, chain0, |chain0| - 1, null, i);
        freed := [slots[head]] + freed;
        spare := spare + 1;
        TailRing.Backwards(last, i, difference + 1);
        head := TailRing.StepBack(head, difference);
      }
    }

    /**
     `ramfs_truncate`, for every size and every state. The number of blocks beyond those counted for the
     size stays, and exactly the blocks taken off the chain are freed. The file is a file again, with the
     common prefix it had, if and only if the count of its new blocks does not wrap. A result of false is
     the panic of `kmalloc`.
     */
    method Truncate(newSize: nat) returns (ok: bool, ghost freed: seq<Block?>)
      requires Sound() && newSize < TOP
      modifies this, repr
      ensures Extended() && (ok ==> Sound()) && (!ok ==> spare == 0)
      ensures ok <==> |old(chain)| - Counted(old(size)) + Counted(newSize) <= room
      ensures ok ==> size == newSize && (Valid() <==> !Wraps(newSize))
      ensures ok ==> |chain| - Counted(newSize) == |old(chain)| - Counted(old(size))
      ensures ok ==> freed == if |chain| < |old(chain)| then old(chain)[|chain|..] else []
      ensures ok && |chain| < |old(chain)| ==> EndsClear(store, newSize % BLOCK)
      ensures ok && old(Valid()) ==> (Valid() && Shared(old(Bytes()), Bytes(), Min(newSize, old(size))) <==> !Wraps(newSize))
    {
      Sizes();
      ghost var store0, size0 := store, size;
      ok, freed := Resize(newSize);
      if !ok { return; }
      CountedFits(newSize, |chain|);
      CountedFits(size, |store0|);
      size := newSize;
      Sizes();
      if old(Valid()) && !Wraps(newSize) { SharedBytes(store0, store, size0, newSize); }
    }

    /** Its two branches. */
    method Resize(newSize: nat) returns (ok: bool, ghost freed: seq<Block?>)
      requires Sound() && newSize < TOP
      modifies this`first, this`chain, this`store, this`repr, this`spare, repr
      ensures Fit() && Extended() && (!ok ==> spare == 0)
      ensures ok <==> |old(chain)| - Counted(size) + Counted(newSize) <= room
      ensures ok ==> |chain| - Counted(newSize) == |old(chain)| - Counted(size)
      ensures ok ==> freed == if |chain| < |old(chain)| then old(chain)[|chain|..] else []
      ensures ok && |chain| < |old(chain)| ==> EndsClear(store, newSize % BLOCK)
      ensures ok && old(Valid()) && !Wraps(newSize) ==> SamePrefix(old(store), store, Min(newSize, size))
    {
      Sizes();
      ghost var store0 := store;
      var original := CountBlocks(size);
      var required := CountBlocks(newSize);
      CountedFits(size, |chain|);
      CountedOrder(size, newSize);
      freed, ok := [], true;
      if original < required {
        ok := LengthenTo(required - original);
        if ok { Shorter(store0, store, BLOCK * |store0|, size); }
      } else if original > required {
        freed := ShortenTo(original - required, newSize);
      } else {
        SameSelf(store, Min(newSize, BLOCK * |chain|));
      }
    }

    method LengthenTo(difference: nat) returns (ok: bool)
      requires Fit() && difference > 0
      modifies this`first, this`chain, this`store, this`repr, this`spare, repr
      ensures Fit() && Extended() && (!ok ==> spare == 0 && |old(chain)| + difference > room)
      ensures ok ==> |chain| == |old(chain)| + difference && SamePrefix(old(store), store, BLOCK * |old(chain)|)
    {
      Sizes();
      ghost var store0 := store;
      ok := Lengthen(difference);
      if ok { GrowPrefix(store0, |store|, BLOCK * |store0|); }
    }

    method ShortenTo(difference: nat, newSize: nat) returns (ghost freed: seq<Block?>)
      requires Fit() && 0 < difference <= |chain|
      modifies this`first, this`chain, this`store, this`repr, this`spare, repr
      ensures Fit() && repr == old(repr) && |chain| + difference == |old(chain)|
      ensures Blocks(newSize) <= |chain| ==> SamePrefix(old(store), store, newSize)
      ensures freed == old(chain)[|chain|..] && EndsClear(store, newSize % BLOCK)
    {
      Sizes();
      ghost var store0 := store;
      ghost var n := |chain| - difference;
      assert Full(store, BLOCK) by { assert Gate(0); }
      freed := Shorten(difference, newSize % BLOCK, n);
      CutClears(store0, n, newSize % BLOCK);
      if Blocks(newSize) <= n { CutPrefix(store0, n, newSize); }
    }

    // -------------------------------------------------------------- whole runs

    /** One operation whose end fits 64 bits. */
    method Perform(op: Op) returns (ok: bool, result: seq<byte>)
      requires Valid() && Proper(op)
      modifies this, repr
      ensures Extended() && (!ok ==> spare == 0)
      ensures ok ==> Valid() && Follows(old(Bytes()), op, Bytes(), result)
      ensures op.Reading? ==> ok
      ensures op.Writing? ==> (!ok <==> if op.bytes == [] then op.offset / BLOCK >= room else op.offset + |op.bytes| > BLOCK * (room - 1))
      ensures op.Resizing? ==> (ok <==> |old(chain)| - Counted(old(size)) + Counted(op.size) <= room)
    {
      Sizes();
      ok, result := true, [];
      match op {
        case Reading(offset, count) =>
          var r := Read(offset, count);
          result := r.value;
        case Writing(offset, bytes) =>
          var n := Write(offset, bytes);
          ok := n.Some?;
        case Resizing(newSize) =>
          ghost var freed;
          ok, freed := Truncate(newSize);
          if ok { Sizes(); }
      }
    }

    /** Any sequence of reads, writes and truncations, up to a panic of `kmalloc`: the file behaves as a sequence of bytes. */
    method Run(ops: seq<Op>) returns (ok: bool, results: seq<seq<byte>>, ghost contents: seq<seq<byte>>)
      requires Valid() && forall op :: op in ops ==> Proper(op)
      modifies this, repr
      ensures Extended() && Behaves(ops[..Min(|results|, |ops|)], results, contents) && contents[0] == old(Bytes())
      ensures ok ==> Valid() && |results| == |ops| && contents[|ops|] == Bytes()
      ensures !ok ==> spare == 0 && |results| < |ops| && !ops[|results|].Reading?
    {
      results, contents := [], [Bytes()];
      while |results| < |ops|
        invariant |results| <= |ops| && Valid() && Extended()
        invariant Behaves(ops[..|results|], results, contents) && contents[0] == old(Bytes()) && contents[|results|] == Bytes()
        decreases |ops| - |results|
      {
        var result;
        var n := |results|;
        ok, result := Perform(ops[n]);
        if !ok { return; }
        BehavesOne(ops, results, contents, result, Bytes());
        results, contents := results + [result], contents + [Bytes()];
      }
      ok := true;
    }
  }

  datatype Op = Reading(offset: nat, count: nat) | Writing(offset: nat, bytes: seq<byte>) | Resizing(size: nat)

  predicate Proper(op: Op) {
    match op
    case Reading(offset, count) => offset + count < TOP
    case Writing(offset, bytes) => offset + |bytes| < TOP
    case Resizing(size) => !Wraps(size)
  }

  /** What an operation does to a sequence of bytes. */
  ghost predicate Follows(before: seq<byte>, op: Op, after: seq<byte>, result: seq<byte>) {
    match op
    case Reading(offset, count) =>
      after == before && result == if offset >= |before| then [] else before[offset..offset + Min(count, |before| - offset)]
    case Writing(offset, bytes) => Overwritten(before, after, offset, bytes)
    case Resizing(size) => |after| == size && Shared(before, after, Min(size, |before|))
  }

  ghost predicate Behaves(ops: seq<Op>, results: seq<seq<byte>>, contents: seq<seq<byte>>) {
    && |results| == |ops| && |contents| == |ops| + 1
    && forall i :: 0 <= i < |ops| ==> Follows(contents[i], ops[i], contents[i + 1], results[i])
  }

  lemma BehavesOne(ops: seq<Op>, results: seq<seq<byte>>, contents: seq<seq<byte>>, result: seq<byte>, after: seq<byte>)
    requires |results| < |ops| && Behaves(ops[..|results|], results, contents)
    requires Follows(contents[|results|], ops[|results|], after, result)
    ensures Behaves(ops[..|results| + 1], results + [result], contents + [after])
  {
    var n := |results|;
    var ops', results', contents' := ops[..n + 1], results + [result], contents + [after];
    forall i | 0 <= i < n + 1 ensures Follows(contents'[i], ops'[i], contents'[i + 1], results'[i]) {
      if i < n { assert ops'[i] == ops[..n][i] && results'[i] == results[i] && contents'[i + 1] == contents[i + 1]; }
    }
  }

  /** The byte at place p of a file that began empty, as far as the operations determine it. */
  function Known(ops: seq<Op>, p: nat): Option<byte> {
    if ops == [] then None else
      var earlier := Known(ops[..|ops| - 1], p);
      match ops[|ops| - 1]
      case Reading(_, _) => earlier
      case Writing(offset, bytes) => if offset <= p < offset + |bytes| then Some(bytes[p - offset]) else earlier
      case Resizing(size) => if p < size then earlier else None
  }

  /** In every run the file holds what was last written, unless it was cut off since. */
  lemma {:induction false} HoldsLastWritten(ops: seq<Op>, results: seq<seq<byte>>, contents: seq<seq<byte>>, p: nat)
    requires Behaves(ops, results, contents) && Known(ops, p).Some?
    ensures p < |contents[|ops|]| && contents[|ops|][p] == Known(ops, p).value
    decreases |ops|
  {
    var n := |ops| - 1;
    var op, before, after := ops[n], contents[n], contents[n + 1];
    assert Follows(before, op, after, results[n]);
    if !(op.Writing? && op.offset <= p < op.offset + |op.bytes|) {
      HoldsLastWritten(ops[..n], results[..n], contents[..n + 1], p);
      if op.Resizing? {
        assert after[..Min(op.size, |before|)][p] == before[..Min(op.size, |before|)][p];
      }
    }
  }

  /** The number of blocks that `size` bytes take. */
  function Blocks(size: nat): nat {
    if size == 0 then 0 else if size <= BLOCK then 1 else Blocks(size - BLOCK) + 1
  }

  lemma {:induction false} BlocksFit(size: nat)
    ensures size <= BLOCK * Blocks(size) && (size > 0 ==> BLOCK * (Blocks(size) - 1) < size)
  {
    if size > BLOCK { BlocksFit(size - BLOCK); }
  }

  lemma BlocksWithin(size: nat, n: nat)
    requires size <= BLOCK * n
    ensures Blocks(size) <= n
  {
    BlocksFit(size);
  }

  /** The rounding up of the size does not fit 64 bits. */
  predicate Wraps(size: nat) {
    size + (BLOCK - 1) >= TOP
  }

  /** The number of blocks as the code counts them. */
  function Counted(size: nat): nat {
    if Wraps(size) then 0 else Blocks(size)
  }

  /** It is the right number exactly if the rounding fits. */
  lemma CountedRight(size: nat)
    requires size < TOP
    ensures Counted(size) == Blocks(size) <==> !Wraps(size)
  {
    BlocksFit(size);
  }

  method CountBlocks(size: nat) returns (n: nat)
    requires size < TOP
    ensures n == Counted(size)
  {
    BlocksFit(size);
    n := Unsigned(size + BLOCK - 1) / BLOCK;
  }

  lemma CountedFits(size: nat, n: nat)
    requires n < 0x8_0000
    ensures size <= BLOCK * n ==> !Wraps(size) && Counted(size) <= n
    ensures !Wraps(size) && Counted(size) <= n ==> size <= BLOCK * n
    ensures Wraps(size) ==> size > BLOCK * n
  {
    BlocksFit(size);
  }

  lemma CountedOrder(a: nat, b: nat)
    ensures !Wraps(a) && !Wraps(b) && a <= b ==> Counted(a) <= Counted(b)
    ensures !Wraps(a) && !Wraps(b) && b <= a ==> Counted(b) <= Counted(a)
  {
    BlocksFit(a);
    BlocksFit(b);
  }

  /** The first n bytes are the same. */
  ghost predicate SamePrefix(before: seq<seq<byte>>, after: seq<seq<byte>>, n: nat) {
    forall z {:trigger Gate(z)} :: Gate(z) ==> Shared(Flat(before), Flat(after), n)
  }

  lemma Shorter(before: seq<seq<byte>>, after: seq<seq<byte>>, n: nat, m: nat)
    requires SamePrefix(before, after, n)
    ensures m <= n ==> SamePrefix(before, after, m)
  {
    assert Gate(0);
    if m <= n <= |Flat(before)| && n <= |Flat(after)| {
      assert Flat(before)[..m] == Flat(before)[..n][..m] && Flat(after)[..m] == Flat(after)[..n][..m];
    }
  }

  lemma SameSelf(store: seq<seq<byte>>, n: nat)
    requires Full(store, BLOCK) && n <= BLOCK * |store|
    ensures SamePrefix(store, store, n)
  {
    StoreSize(store);
  }

  lemma GrowPrefix(store: seq<seq<byte>>, n: nat, size: nat)
    requires Full(store, BLOCK) && size <= BLOCK * |store|
    ensures SamePrefix(store, Grow(store, n), size)
  {
    var grown := Grow(store, n);
    assert grown == store + grown[|store|..];
    FlatJoins(store, grown[|store|..]);
    StoreSize(store);
  }

  /** Whatever is cleared lies behind the new size. */
  lemma CutPrefix(store: seq<seq<byte>>, n: nat, newSize: nat)
    requires Full(store, BLOCK) && Blocks(newSize) <= n <= |store|
    ensures SamePrefix(store, Cut(store, n, newSize % BLOCK), newSize)
  {
    var r := newSize % BLOCK;
    BlocksFit(newSize);
    StoreSize(store);
    StorePrefix(store, n);
    StoreSize(store[..n]);
    assert Flat(store[..n])[..newSize] == Flat(store)[..newSize];
    if n > 0 && r != 0 {
      var zeros := Fill(BLOCK - r, 0 as byte);
      var last := store[n - 1];
      assert ClearedFrom(last, r) == Patch(last, r, zeros);
      StorePatch(store[..n], n - 1, r, zeros);
      assert Cut(store, n, r) == store[..n][n - 1 := Patch(store[..n][n - 1], r, zeros)];
      assert newSize <= BLOCK * (n - 1) + r;
    }
  }

  /** The first n blocks, the last one cleared from place r on unless r is 0. */
  ghost function Cut(store: seq<seq<byte>>, n: nat, r: nat): (c: seq<seq<byte>>)
    requires n <= |store|
    ensures |c| == n
  {
    if n == 0 || r == 0 then store[..n] else store[..n][n - 1 := ClearedFrom(store[n - 1], r)]
  }

  /** The last block is zero from place r on, unless r is 0. */
  ghost predicate EndsClear(store: seq<seq<byte>>, r: nat) {
    store != [] && r > 0 ==> var last := store[|store| - 1]; forall p :: r <= p < |last| ==> last[p] == 0
  }

  ghost function ClearedFrom(block: seq<byte>, r: nat): (c: seq<byte>)
    ensures |c| == |block|
    ensures r <= |block| ==> c[..r] == block[..r] && forall p :: r <= p < |block| ==> c[p] == 0
  {
    if r <= |block| then block[..r] + Fill(|block| - r, 0) else block
  }

  lemma CutClears(store: seq<seq<byte>>, n: nat, r: nat)
    requires Full(store, BLOCK) && n <= |store| && r < BLOCK
    ensures EndsClear(Cut(store, n, r), r)
  {
  }

  /** After growing as it did, the store differs from the old one by the first `done` bytes of `data` at `offset`. */
  ghost predicate Wrote(before: seq<seq<byte>>, after: seq<seq<byte>>, offset: nat, data: seq<byte>, done: nat) {
    && |before| <= |after| && done <= |data|
    && forall z {:trigger Gate(z)} :: Gate(z) ==> Overlaid(before, after, offset, data[..done])
  }

  ghost predicate Overlaid(before: seq<seq<byte>>, after: seq<seq<byte>>, offset: nat, data: seq<byte>) {
    && Full(before, BLOCK) && Full(after, BLOCK)
    && offset + |data| <= |Flat(Grow(before, |after|))|
    && Flat(after) == Patch(Flat(Grow(before, |after|)), offset, data)
  }

  lemma WroteNothing(before: seq<seq<byte>>, after: seq<seq<byte>>, offset: nat, buffer: seq<byte>)
    requires Full(before, BLOCK) && after == Grow(before, offset / BLOCK + 1)
    ensures Wrote(before, after, offset, buffer, 0)
  {
    assert Grow(before, |after|) == after;
    StoreSize(after);
  }

  lemma WroteMore(before: seq<seq<byte>>, mid: seq<seq<byte>>, after: seq<seq<byte>>, offset: nat, buffer: seq<byte>, done: nat, piece: seq<byte>)
    requires done + |piece| <= |buffer| && piece == buffer[done..done + |piece|]
    requires Wrote(before, mid, offset, buffer, done) && |after| == |mid| && Full(after, BLOCK)
    requires offset + done + |piece| <= |Flat(mid)| && Flat(after) == Patch(Flat(mid), offset + done, piece)
    ensures Wrote(before, after, offset, buffer, done + |piece|)
  {
    assert Gate(0);
    PatchMore(Flat(Grow(before, |mid|)), offset, buffer, done, piece);
  }

  lemma BlockWritten(before: seq<seq<byte>>, mid: seq<seq<byte>>, k: nat, from: nat, offset: nat, buffer: seq<byte>, done: nat, piece: seq<byte>)
    requires done + |piece| <= |buffer| && piece == buffer[done..done + |piece|]
    requires Wrote(before, mid, offset, buffer, done) && k < |mid| && from + |piece| <= BLOCK && BLOCK * k + from == offset + done
    ensures |mid[k]| == BLOCK && Wrote(before, mid[k := Patch(mid[k], from, piece)], offset, buffer, done + |piece|)
  {
    assert Gate(0);
    StorePatch(mid, k, from, piece);
    WroteMore(before, mid, mid[k := Patch(mid[k], from, piece)], offset, buffer, done, piece);
  }

  lemma PatchMore(s: seq<byte>, offset: nat, buffer: seq<byte>, done: nat, piece: seq<byte>)
    requires done + |piece| <= |buffer| && piece == buffer[done..done + |piece|] && offset + done + |piece| <= |s|
    ensures Patch(Patch(s, offset, buffer[..done]), offset + done, piece) == Patch(s, offset, buffer[..done + |piece|])
  {
    PatchAppend(s, offset, buffer[..done], piece);
    assert buffer[..done] + piece == buffer[..done + |piece|];
  }

  lemma WroteGrow(before: seq<seq<byte>>, mid: seq<seq<byte>>, offset: nat, data: seq<byte>, done: nat, n: nat)
    requires Wrote(before, mid, offset, data, done)
    ensures Wrote(before, Grow(mid, n), offset, data, done)
  {
    assert Gate(0);
    var after := Grow(mid, n);
    var more := after[|mid|..];
    assert after == mid + more;
    assert Grow(before, |after|) == Grow(before, |mid|) + more;
    FlatJoins(mid, more);
    FlatJoins(Grow(before, |mid|), more);
    PatchFront(Flat(Grow(before, |mid|)), Flat(more), offset, data[..done]);
  }

  lemma NoRoomFor(offset: nat, room: nat)
    requires offset / BLOCK + 1 > room
    ensures offset >= BLOCK * room
  {
    assert offset == BLOCK * (offset / BLOCK) + offset % BLOCK;
  }

  lemma WroteLonger(before: seq<seq<byte>>, after: seq<seq<byte>>, offset: nat, data: seq<byte>)
    requires Wrote(before, after, offset, data, |data|)
    ensures offset + |data| <= BLOCK * |after|
  {
    assert Gate(0);
    StoreSize(after);
    StoreSize(Grow(before, |after|));
  }

  /** The first n bytes of both are the same. */
  ghost predicate Shared(before: seq<byte>, after: seq<byte>, n: nat) {
    n <= |before| && n <= |after| && after[..n] == before[..n]
  }

  lemma SharedBytes(before: seq<seq<byte>>, after: seq<seq<byte>>, size: nat, newSize: nat)
    requires SamePrefix(before, after, Min(newSize, size)) && size <= |Flat(before)| && newSize <= |Flat(after)|
    ensures Shared(Flat(before)[..size], Flat(after)[..newSize], Min(newSize, size))
  {
    assert Gate(0);
    var n := Min(newSize, size);
    assert Flat(before)[..size][..n] == Flat(before)[..n] && Flat(after)[..newSize][..n] == Flat(after)[..n];
  }

  /** What a write does to a file, as a relation on byte sequences: a gap behind the old end holds what its blocks hold. */
  ghost predicate Overwritten(before: seq<byte>, after: seq<byte>, offset: nat, data: seq<byte>) {
    && |after| == (if |before| < offset + |data| then offset + |data| else |before|)
    && forall p :: 0 <= p < |after| ==>
      && (offset <= p < offset + |data| ==> after[p] == data[p - offset])
      && (p < |before| && !(offset <= p < offset + |data|) ==> after[p] == before[p])
  }

  /** A write changes exactly its range of the file and makes it longer if need be. */
  lemma WriteOverwrites(before: seq<seq<byte>>, after: seq<seq<byte>>, size: nat, offset: nat, data: seq<byte>)
    requires Wrote(before, after, offset, data, |data|) && size <= BLOCK * |before|
    ensures var size' := if size < offset + |data| then offset + |data| else size;
            size <= |Flat(before)| && size' <= |Flat(after)| && Overwritten(Flat(before)[..size], Flat(after)[..size'], offset, data)
  {
    assert Gate(0);
    StoreSize(before);
    StoreSize(after);
    var grown := Grow(before, |after|);
    var more := grown[|before|..];
    assert grown == before + more;
    FlatJoins(before, more);
    assert data[..|data|] == data;
    OverwrittenPart(Flat(before), Flat(more), Flat(after), size, offset, data);
  }

  lemma OverwrittenPart(old': seq<byte>, more: seq<byte>, new': seq<byte>, size: nat, offset: nat, data: seq<byte>)
    requires size <= |old'| && offset + |data| <= |old' + more| && new' == Patch(old' + more, offset, data)
    ensures var size' := if size < offset + |data| then offset + |data| else size;
            size' <= |new'| && Overwritten(old'[..size], new'[..size'], offset, data)
  {
  }

  // ---------------------------------------------------------------- which reads are right

  /** At most `n` bytes from `at` on. */
  ghost function Slice(flat: seq<byte>, at: nat, n: nat): seq<byte> {
    if at <= |flat| then flat[at..at + Min(n, |flat| - at)] else []
  }

  /** The byte count after the check against the file size. */
  function Clipped(size: nat, offset: nat, count: nat): nat
    requires offset < size
  {
    if Unsigned(offset + count) > size then size - offset else count
  }

  /** A read within a file is right if its end does not wrap, and otherwise only if the file fills its blocks. */
  lemma ReadExact(flat: seq<byte>, size: nat, offset: nat, count: nat, r: seq<byte>)
    requires offset < size && offset < TOP && count < TOP && r == Slice(flat, offset, Clipped(size, offset, count))
    ensures size <= |flat| < TOP ==>
      (r == flat[..size][offset..offset + Min(count, size - offset)] <==> offset + count < TOP || size == |flat|)
  {
    if size <= |flat| < TOP {
      var right := flat[..size][offset..offset + Min(count, size - offset)];
      assert right == flat[offset..offset + Min(count, size - offset)];
      if offset + count >= TOP {
        assert Min(count, |flat| - offset) == |flat| - offset;
      }
    }
  }

  /** `r` is what `flat` holds at `at`. */
  ghost predicate Copied(flat: seq<byte>, at: nat, r: seq<byte>) {
    forall z {:trigger Gate(z)} :: Gate(z) ==> CopiedBody(flat, at, r)
  }

  ghost predicate CopiedBody(flat: seq<byte>, at: nat, r: seq<byte>) {
    r == [] || (at + |r| <= |flat| && r == flat[at..at + |r|])
  }

  lemma CopiedAll(flat: seq<byte>, at: nat, r: seq<byte>)
    requires Copied(flat, at, r)
    ensures CopiedBody(flat, at, r)
  {
    assert Gate(0);
  }

  /** A piece of one block continues a piece of the flat bytes. */
  lemma Piece(flat: seq<byte>, block: seq<byte>, base: nat, from: nat, at: nat, r: seq<byte>, more: nat)
    requires |block| == BLOCK && from + more <= BLOCK && base + BLOCK <= |flat| && flat[base..base + BLOCK] == block
    requires Copied(flat, at, r) && at + |r| == base + from
    ensures Copied(flat, at, r + block[from..from + more])
  {
    assert Gate(0);
    forall i | 0 <= i < BLOCK ensures flat[base + i] == block[i] {
      assert flat[base..base + BLOCK][i] == block[i];
    }
    if r != [] { assert flat[at..at + |r|] + block[from..from + more] == flat[at..at + |r| + more]; }
  }

  /** The failing case: a file of 10 bytes in one block, truncated to the largest size there is, has no block left and that size. */
  method TruncatedToTop() returns (f: File)
    ensures f.Sound() && !f.Valid() && f.size == TOP - 1 && f.first == null
  {
    f := new File(8);
    assert Blocks(10) == 1;
    var ok, freed := f.Truncate(10);
    ok, freed := f.Truncate(TOP - 1);
  }
}
