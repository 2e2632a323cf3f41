/**
 The kernel heap (kernel/memory/mman.c): a first-fit allocator of page ranges that splits regions and
 never joins them, and the pages of the kernel half that it has mapped.
 */
module KernelHeap {

  import opened Common

  /** A row of the region table; `page` is `start / PAGE_SIZE`. */
  datatype Region = Region(page: int, pages: int, free: bool)

  /** ALLOC_MAP_SIZE */
  const CAPACITY: nat := 1024

  // ---------------------------------------------------------------- init_mman's arithmetic

  /** PAGE_ALIGN, in 64 bits. */
  function PageAlign(x: int): int {
    (x + 4095) / 4096 * 4096 % 0x1_0000_0000_0000_0000
  }

  /** `map[0].pages`: a subtraction that wraps and is then cut to 32 bits. */
  function InitialPages(heapStart: int): int {
    ToInt((0xF_FFFF_FFFF - heapStart / 4096) % 0x1_0000_0000_0000_0000)
  }

  /**
   The initial number of pages is what lies between the kernel image and the last page of the address
   space. There is a heap exactly for images up to 0x7FFF_E000 bytes: two pages short of 2 GiB.
   */
  lemma InitialRange(executableSize: nat)
    requires executableSize < 0x8000_0000
    ensures var start := PageAlign(0xFFFF_FFFF_8000_0000 + executableSize);
            && InitialPages(start) == 0x7_FFFF - (executableSize + 4095) / 4096
            && (InitialPages(start) > 0 <==> executableSize <= 0x7FFF_E000)
            && (InitialPages(start) > 0 ==> start % 4096 == 0 && start + 4096 * InitialPages(start) == 0x1_0000_0000_0000_0000 - 4096)
  {
    var pages := (executableSize + 4095) / 4096;
    var start := PageAlign(0xFFFF_FFFF_8000_0000 + executableSize);
    var left := 0x7_FFFF - pages;
    Pages4096(executableSize, 0xF_FFFF_FFF8_0000);
    if pages == 0x8_0000 {
      assert start == 0 && 0xF_FFFF_FFFF - start / 4096 == 0xF_FFFF_FFFF;
      Low32(0xF_FFFF_FFFF, 0xF, 0xFFFF_FFFF);
      assert InitialPages(start) == -1;
    } else {
      assert start == 4096 * (0xF_FFFF_FFF8_0000 + pages);
      Low64(0xF_FFFF_FFFF - start / 4096, left + 0x1_0000_0000 * 0xFFF0_0010);
      Low32(left + 0x1_0000_0000 * 0xFFF0_0010, 0xFFF0_0010, left);
      assert InitialPages(start) == left;
    }
  }

  lemma Pages4096(x: nat, base: nat)
    ensures (4096 * base + x + 4095) / 4096 == base + (x + 4095) / 4096
  {
  }

  lemma Low64(x: int, r: nat)
    requires r < 0x1_0000_0000_0000_0000 && x == r - 0x1_0000_0000_0000_0000
    ensures x % 0x1_0000_0000_0000_0000 == r
  {
  }

  lemma Low32(x: int, k: int, r: nat)
    requires r < 0x1_0000_0000 && x == r + 0x1_0000_0000 * k
    ensures x % 0x1_0000_0000 == r
  {
  }

  // ---------------------------------------------------------------- the table

  predicate Within(r: Region, p: int) {
    r.page <= p < r.page + r.pages
  }

  /** The regions are non-empty, lie in [lo, hi), and every page there is in the one its owner entry names and in no other. */
  ghost predicate Partition(t: seq<Region>, owner: seq<nat>, lo: int, hi: int) {
    && |owner| == hi - lo
    && (forall i :: 0 <= i < |t| ==> lo <= t[i].page && 1 <= t[i].pages && t[i].page + t[i].pages <= hi)
    && (forall k :: 0 <= k < |owner| ==> owner[k] < |t|)
    && (forall i, k :: 0 <= i < |t| && 0 <= k < |owner| ==> (Within(t[i], lo + k) <==> owner[k] == i))
  }

  lemma Disjoint(t: seq<Region>, owner: seq<nat>, lo: int, hi: int, i: nat, j: nat)
    requires Partition(t, owner, lo, hi) && i < |t| && j < |t| && i != j
    ensures t[i].page + t[i].pages <= t[j].page || t[j].page + t[j].pages <= t[i].page
  {
    var k := (if t[i].page < t[j].page then t[j].page else t[i].page) - lo;
    assert (Within(t[i], lo + k) <==> owner[k] == i) && (Within(t[j], lo + k) <==> owner[k] == j);
  }

  function Total(t: seq<Region>): int {
    if t == [] then 0 else Total(t[..|t| - 1]) + t[|t| - 1].pages
  }

  lemma {:induction false} TotalSet(t: seq<Region>, i: nat, r: Region)
    requires i < |t|
    ensures Total(t[i := r]) == Total(t) - t[i].pages + r.pages
  {
    var n := |t| - 1;
    if i == n {
      assert t[i := r][..n] == t[..n];
    } else {
      assert t[i := r][..n] == t[..n][i := r];
      TotalSet(t[..n], i, r);
    }
  }

  lemma TotalPush(t: seq<Region>, r: Region)
    ensures Total(t + [r]) == Total(t) + r.pages
  {
    assert (t + [r])[..|t|] == t;
  }

  // ---------------------------------------------------------------- allocation as a function of the table

  predicate Fits(r: Region, n: int) {
    r.free && r.pages >= n
  }

  /** i is the first row that fits, or the number of rows if none does. */
  ghost predicate IsFirstFit(t: seq<Region>, n: int, i: nat) {
    i <= |t| && (i < |t| ==> Fits(t[i], n)) && forall j :: 0 <= j < i ==> !Fits(t[j], n)
  }

  /** The first region that fits, cut to size; the remainder becomes a new last row. */
  ghost function Split(t: seq<Region>, i: nat, n: int): seq<Region>
    requires i < |t|
  {
    var r := t[i];
    t[i := Region(r.page, n, false)] + if r.pages > n then [Region(r.page + n, r.pages - n, true)] else []
  }

  ghost function SplitOwner(t: seq<Region>, owner: seq<nat>, lo: int, i: nat, n: int): (o: seq<nat>)
    requires i < |t|
    ensures |o| == |owner|
  {
    seq(|owner|, k requires 0 <= k < |owner| => if owner[k] == i && lo + k >= t[i].page + n then |t| else owner[k])
  }

  lemma SplitPartition(t: seq<Region>, owner: seq<nat>, lo: int, hi: int, i: nat, n: int)
    requires Partition(t, owner, lo, hi) && i < |t| && 1 <= n <= t[i].pages
    ensures Partition(Split(t, i, n), SplitOwner(t, owner, lo, i, n), lo, hi)
  {
    var t', o' := Split(t, i, n), SplitOwner(t, owner, lo, i, n);
    forall j, k | 0 <= j < |t'| && 0 <= k < |o'| ensures Within(t'[j], lo + k) <==> o'[k] == j {
      assert Within(t[i], lo + k) <==> owner[k] == i;
      if j < |t| { assert Within(t[j], lo + k) <==> owner[k] == j; }
    }
  }

  lemma SplitTotal(t: seq<Region>, i: nat, n: int)
    requires i < |t| && 1 <= n <= t[i].pages
    ensures Total(Split(t, i, n)) == Total(t)
  {
    TotalSet(t, i, Region(t[i].page, n, false));
    var rest := t[i := Region(t[i].page, n, false)];
    if t[i].pages > n {
      TotalPush(rest, Region(t[i].page + n, t[i].pages - n, true));
    } else {
      assert rest + [] == rest;
    }
  }

  /** The live allocations. */
  ghost function Live(t: seq<Region>): set<Region> {
    set i | 0 <= i < |t| && !t[i].free :: t[i]
  }

  predicate Apart(a: Region, b: Region) {
    a.page + a.pages <= b.page || b.page + b.pages <= a.page
  }

  /** One more live allocation, apart from all the others. */
  lemma SplitLive(t: seq<Region>, owner: seq<nat>, lo: int, hi: int, i: nat, n: int)
    requires Partition(t, owner, lo, hi) && i < |t| && Fits(t[i], n) && 1 <= n
    ensures Live(Split(t, i, n)) == Live(t) + {Region(t[i].page, n, false)}
    ensures forall r :: r in Live(t) ==> Apart(r, Region(t[i].page, n, false))
    ensures Region(t[i].page, n, false) !in Live(t)
  {
    var t' := Split(t, i, n);
    var one := Region(t[i].page, n, false);
    assert t'[i] == one;
    assert forall j :: 0 <= j < |t| && j != i ==> t'[j] == t[j];
    forall r | r in Live(t) ensures Apart(r, one) && r != one {
      var j :| 0 <= j < |t| && !t[j].free && t[j] == r;
      Disjoint(t, owner, lo, hi, i, j);
    }
    forall r | r in Live(t) + {one} ensures r in Live(t') {
      if r != one {
        var j :| 0 <= j < |t| && !t[j].free && t[j] == r;
        assert t'[j] == r;
      }
    }
  }

  /** One less. */
  lemma FreeLive(t: seq<Region>, owner: seq<nat>, lo: int, hi: int, i: nat)
    requires Partition(t, owner, lo, hi) && i < |t| && !t[i].free
    ensures Live(t[i := t[i].(free := true)]) == Live(t) - {t[i]}
  {
    var t' := t[i := t[i].(free := true)];
    forall r | r in Live(t') ensures r in Live(t) && r != t[i] {
      var j :| 0 <= j < |t'| && !t'[j].free && t'[j] == r;
      assert t[j] == r;
      Disjoint(t, owner, lo, hi, i, j);
    }
    forall r | r in Live(t) - {t[i]} ensures r in Live(t') {
      var j :| 0 <= j < |t| && !t[j].free && t[j] == r;
      assert t'[j] == r;
    }
  }

  lemma FreePartition(t: seq<Region>, owner: seq<nat>, lo: int, hi: int, i: nat)
    requires Partition(t, owner, lo, hi) && i < |t|
    ensures Partition(t[i := t[i].(free := true)], owner, lo, hi)
    ensures Total(t[i := t[i].(free := true)]) == Total(t)
  {
    TotalSet(t, i, t[i].(free := true));
    var t' := t[i := t[i].(free := true)];
    forall j, k | 0 <= j < |t'| && 0 <= k < |owner| ensures Within(t'[j], lo + k) <==> owner[k] == j {
      assert Within(t[j], lo + k) <==> owner[k] == j;
    }
  }

  // ---------------------------------------------------------------- the allocator

  predicate Spans(from: int, n: int, p: int) {
    from <= p < from + n
  }

  ghost function Pages(from: int, n: int): set<int> {
    set p | from <= p < from + n && Spans(from, n, p)
  }

  /** A page of the heap is mapped exactly when its region is allocated. */
  ghost predicate Sound(t: seq<Region>, owner: seq<nat>, lo: int, hi: int, mapped: set<int>) {
    && Partition(t, owner, lo, hi) && Total(t) == hi - lo
    && forall k :: 0 <= k < |owner| ==> (lo + k in mapped <==> !t[owner[k]].free)
  }

  lemma MallocSound(t: seq<Region>, owner: seq<nat>, lo: int, hi: int, mapped: set<int>, i: nat, n: int)
    requires Sound(t, owner, lo, hi, mapped) && i < |t| && Fits(t[i], n) && 1 <= n
    ensures forall p :: p in Pages(t[i].page, n) ==> p !in mapped && lo <= p < hi
    ensures Sound(Split(t, i, n), SplitOwner(t, owner, lo, i, n), lo, hi, mapped + Pages(t[i].page, n))
  {
    SplitPartition(t, owner, lo, hi, i, n);
    SplitTotal(t, i, n);
    var t', o' := Split(t, i, n), SplitOwner(t, owner, lo, i, n);
    forall p | p in Pages(t[i].page, n) ensures p !in mapped && lo <= p < hi {
      assert Within(t[i], lo + (p - lo)) <==> owner[p - lo] == i;
    }
    forall k | 0 <= k < |owner| ensures lo + k in mapped + Pages(t[i].page, n) <==> !t'[o'[k]].free {
      assert Within(t[i], lo + k) <==> owner[k] == i;
    }
  }

  lemma FreeSound(t: seq<Region>, owner: seq<nat>, lo: int, hi: int, mapped: set<int>, i: nat)
    requires Sound(t, owner, lo, hi, mapped) && i < |t| && !t[i].free
    ensures forall p :: p in Pages(t[i].page, t[i].pages) ==> p in mapped && lo <= p < hi
    ensures Sound(t[i := t[i].(free := true)], owner, lo, hi, mapped - Pages(t[i].page, t[i].pages))
  {
    FreePartition(t, owner, lo, hi, i);
    forall p | p in Pages(t[i].page, t[i].pages) ensures p in mapped && lo <= p < hi {
      assert Within(t[i], lo + (p - lo)) <==> owner[p - lo] == i;
    }
    var t' := t[i := t[i].(free := true)];
    forall k | 0 <= k < |owner| ensures lo + k in mapped - Pages(t[i].page, t[i].pages) <==> !t'[owner[k]].free {
      assert Within(t[i], lo + k) <==> owner[k] == i;
    }
  }

  class Heap {
    const lo: int
    const hi: int
    const table: array<Region>
    var mapIndex: nat
    /** The pages of the kernel half with a present entry. */
    var mapped: set<int>
    ghost var owner: seq<nat>

    ghost function Rows(): seq<Region>
      requires mapIndex <= table.Length
      reads this, table
    {
      table[..mapIndex]
    }

    ghost predicate Valid()
      reads this, table
    {
      && 1 <= mapIndex < table.Length == CAPACITY && 0 <= lo < hi
      && forall z {:trigger Gate(z)} :: Gate(z) ==> Sound(Rows(), owner, lo, hi, mapped)
    }

    /** `init_mman` when nothing of the range is mapped. */
    constructor (executableSize: nat, mapped: set<int>)
      requires executableSize <= 0x7FFF_E000
      requires forall p :: p in mapped ==> 4096 * p < 0xFFFF_FFFF_8000_0000 + executableSize
      ensures Valid() && fresh(table) && this.mapped == mapped && hi == 0x10_0000_0000_0000 - 1
      ensures Rows() == [Region(lo, hi - lo, true)]
    {
      InitialRange(executableSize);
      var start := PageAlign(0xFFFF_FFFF_8000_0000 + executableSize);
      var pages := InitialPages(start);
      lo, hi := start / 4096, start / 4096 + pages;
      var first := Region(start / 4096, pages, true);
      table := new Region[CAPACITY](_ => first);
      mapIndex, this.mapped, owner := 1, mapped, seq(pages, _ => 0);
      new;
      assert Rows() == [first];
      TotalPush([], first);
      assert [] + [first] == [first];
    }

    /** The part of `alloc_region` that `kmalloc` relies on: it panics on a page that is already mapped. */
    method AllocRegion(page: int, n: nat)
      requires forall p :: page <= p < page + n ==> p !in mapped
      modifies this`mapped
      ensures mapped == old(mapped) + Pages(page, n)
    {
      for k := 0 to n
        invariant mapped == old(mapped) + Pages(page, k)
      {
        assert page + k !in mapped;
        mapped := mapped + {page + k};
      }
    }

    /** `find_available_va`; None where the code panics. */
    method FindAvailable(n: int) returns (r: Option<int>, ghost i: nat)
      requires Valid() && 1 <= n
      modifies this`mapIndex, this`owner, table
      ensures IsFirstFit(old(Rows()), n, i)
      ensures r.None? <==> i == old(mapIndex) || (old(Rows())[i].pages > n && old(mapIndex) == CAPACITY - 1)
      ensures r.Some? ==> r.value == 4096 * old(Rows())[i].page
      ensures r.Some? ==> 1 <= mapIndex < table.Length && Rows() == Split(old(Rows()), i, n) && owner == SplitOwner(old(Rows()), old(owner), lo, i, n)
    {
      i := 0;
      for k := 0 to mapIndex
        invariant forall j :: 0 <= j < k ==> !Fits(table[j], n)
        invariant mapIndex == old(mapIndex) && table[..] == old(table[..]) && owner == old(owner)
      {
        if table[k].free && table[k].pages >= n {
          i := k;
          owner := SplitOwner(Rows(), owner, lo, k, n);
          if table[k].pages > n {
            table[mapIndex] := Region(table[k].page + n, table[k].pages - n, true);
            mapIndex := mapIndex + 1;
            if mapIndex >= CAPACITY { return None, i; }
          }
          table[k] := table[k].(pages := n, free := false);
          return Some(4096 * table[k].page), i;
        }
      }
      i := mapIndex;
      r := None;
    }

    /**
     `kmalloc`, for a size greater than zero; None where it panics for want of a region that is large
     enough or of a free row. No panic for a page that is already mapped can occur.
     */
    method KMalloc(size: nat) returns (r: Option<int>, ghost i: nat)
      requires Valid() && size > 0
      modifies this`mapIndex, this`owner, this`mapped, table
      ensures IsFirstFit(old(Rows()), (size + 4095) / 4096, i)
      ensures i <= old(mapIndex) && forall j :: 0 <= j < i ==> !(old(Rows())[j].free && 4096 * old(Rows())[j].pages >= size)
      ensures i < old(mapIndex) ==> old(Rows())[i].free && 4096 * old(Rows())[i].pages >= size
      ensures r.None? <==> i == old(mapIndex) || (old(Rows())[i].pages > (size + 4095) / 4096 && old(mapIndex) == CAPACITY - 1)
      ensures r.Some? ==> Valid() && r.value == 4096 * old(Rows())[i].page
      ensures r.Some? ==>
        (var got := Region(old(Rows())[i].page, (size + 4095) / 4096, false);
         && lo <= got.page && got.page + got.pages <= hi
         && Live(Rows()) == old(Live(Rows())) + {got}
         && (forall other :: other in old(Live(Rows())) ==> Apart(other, got))
         && mapped == old(mapped) + Pages(got.page, got.pages)
         && old(mapped) !! Pages(got.page, got.pages))
    {
      var n := (size + 4095) / 4096;
      assert Gate(0);
      var address, at := FindAvailable(n);
      i := at;
      if address.None? { return None, i; }
      ghost var was := old(Rows());
      SplitLive(was, old(owner), lo, hi, i, n);
      MallocSound(was, old(owner), lo, hi, mapped, i, n);
      var page := address.value / 4096;
      assert page == was[i].page;
      AllocRegion(page, n);
      r := address;
    }

    /** `kfree` of the start of a live allocation; below the heap it does nothing. */
    method KFree(address: int, ghost i: nat)
      requires Valid()
      requires address >= 4096 * lo ==> i < mapIndex && 4096 * table[i].page == address && !table[i].free
      modifies this`mapped, table
      ensures Valid()
      ensures address < 4096 * lo ==> mapped == old(mapped) && Rows() == old(Rows())
      ensures address >= 4096 * lo ==>
        (var r := old(table[i]);
         && Live(Rows()) == old(Live(Rows())) - {r}
         && mapped == old(mapped) - Pages(r.page, r.pages))
    {
      if address < 4096 * lo { return; }
      assert Gate(0);
      ghost var was := Rows();
      assert was[i] == table[i];
      FreeLive(was, owner, lo, hi, i);
      FreeSound(was, owner, lo, hi, mapped, i);
      var index, n := 0, 0;
      for k := 0 to mapIndex
        invariant k > i ==> index == i && n == was[i].pages
        invariant k <= i ==> index == 0 && n == 0
        modifies {}
      {
        if 4096 * table[k].page == address {
          assert was[k] == table[k];
          OneStart(was, owner, lo, hi, i, k);
          index, n := k, table[k].pages;
        }
      }
      Unmap(address / 4096, n);
      table[index] := table[index].(free := true);
      assert Rows() == was[i := was[i].(free := true)];
    }

    method Unmap(page: int, n: nat)
      modifies this`mapped
      ensures mapped == old(mapped) - Pages(page, n)
    {
      for k := 0 to n
        invariant mapped == old(mapped) - Pages(page, k)
      {
        mapped := mapped - {page + k};
      }
    }
  }

  /** No two regions start at the same page. */
  lemma OneStart(t: seq<Region>, owner: seq<nat>, lo: int, hi: int, i: nat, j: nat)
    requires Partition(t, owner, lo, hi) && i < |t| && j < |t| && t[i].page == t[j].page
    ensures i == j
  {
    if i != j { Disjoint(t, owner, lo, hi, i, j); }
  }

  /** Live allocations do not overlap, and together they are exactly the mapped pages of the heap. */
  lemma LiveIsMapped(t: seq<Region>, owner: seq<nat>, lo: int, hi: int, mapped: set<int>)
    requires Sound(t, owner, lo, hi, mapped)
    ensures forall a, b :: a in Live(t) && b in Live(t) && a != b ==> Apart(a, b)
    ensures forall p :: lo <= p < hi ==> (p in mapped <==> exists r :: r in Live(t) && Within(r, p))
  {
    forall a, b | a in Live(t) && b in Live(t) && a != b ensures Apart(a, b) {
      var i :| 0 <= i < |t| && !t[i].free && t[i] == a;
      var j :| 0 <= j < |t| && !t[j].free && t[j] == b;
      Disjoint(t, owner, lo, hi, i, j);
    }
    forall p | lo <= p < hi ensures p in mapped <==> exists r :: r in Live(t) && Within(r, p) {
      var k := owner[p - lo];
      assert Within(t[k], lo + (p - lo));
      if r :| r in Live(t) && Within(r, p) {
        var i :| 0 <= i < |t| && !t[i].free && t[i] == r;
        assert Within(t[i], lo + (p - lo)) <==> owner[p - lo] == i;
      }
      if p in mapped {
        assert t[k] in Live(t);
      }
    }
  }
}
