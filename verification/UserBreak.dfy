/** `free_region`, and the user break of kernel/usermode/break.c on top of the page tables. */
module UserBreak {
  import opened Common
  import opened Places
  import opened PageTables
  import opened PageMachine
  import opened AddressSpaces

  // ---------------------------------------------------------------- free_region

  /** The pages `lo .. hi` of the space are unmapped, all other leaf entries and all data stay. */
  ghost predicate RegionGone(m: Mem, g: Shape, m': Mem, g': Shape, root: nat, lo: nat, hi: nat) {
    && g'.pins == g.pins && g'.zero == g.zero
    && (forall k :: k in g'.leaves <==> k in g.leaves && !InRegion(k, root, lo, hi))
    && (forall k :: k in g'.leaves ==> g'.leaves[k] == g.leaves[k])
    && (forall q :: q in g'.at ==> q in g.at && g'.at[q] == g.at[q])
    && (forall q :: q in g.at && q !in g'.at ==> q.At?)
    && m'.words.Keys == m.words.Keys
    && (forall f :: f in g'.owner ==> f in g.owner)
    && (forall a :: a in m.words && a.frame !in g.owner ==> m'.words[a] == m.words[a])
  }

  predicate Swept(z: int) {
    true
  }

  /** (Guarded as `Inv` is.) */
  ghost predicate RegionFreed(m: Mem, g: Shape, m': Mem, g': Shape, root: nat, lo: nat, hi: nat) {
    forall z {:trigger Swept(z)} :: Swept(z) ==> RegionGone(m, g, m', g', root, lo, hi)
  }

  lemma RegionFreedNone(m: Mem, g: Shape, root: nat, lo: nat)
    ensures RegionFreed(m, g, m, g, root, lo, lo)
  {
  }

  lemma OwnersAreTables(m: Mem, g: Shape, f: nat)
    requires Inv(m, g) && f in g.owner
    ensures g.owner[f] in g.at && g.at[g.owner[f]].frame == f
  {
    Open(m, g);
  }

  lemma PrunedOwners(m: Mem, g: Shape, m': Mem, g': Shape, k: Place)
    requires Inv(m, g) && Inv(m', g') && Pruned(m, g, m', g', k)
    ensures forall f :: f in g'.owner ==> f in g.owner
  {
    forall f | f in g'.owner ensures f in g.owner {
      OwnersAreTables(m', g', f);
      TableFrame(m, g, g'.owner[f]);
    }
  }

  lemma RegionFreedStep(m: Mem, g: Shape, m1: Mem, g1: Shape, m2: Mem, g2: Shape, root: nat, lo: nat, hi: nat, i: nat)
    requires Inv(m, g) && Inv(m1, g1) && Inv(m2, g2) && RegionFreed(m, g, m1, g1, root, lo, hi) && lo <= hi < USER_PAGES && i / PAGE_SIZE == hi
    requires SlotOf(root, GetPageEntry(i)) in g1.leaves ==> Pruned(m1, g1, m2, g2, SlotOf(root, GetPageEntry(i)))
    requires SlotOf(root, GetPageEntry(i)) !in g1.leaves ==> m2 == m1 && g2 == g1
    ensures RegionFreed(m, g, m2, g2, root, lo, hi + 1)
  {
    assert Swept(0);
    var k := SlotOf(root, GetPageEntry(i));
    SlotFacts(root, i);
    if k in g1.leaves { PrunedOwners(m1, g1, m2, g2, k); }
    forall q {:trigger InRegion(q, root, lo, hi + 1)}
      ensures InRegion(q, root, lo, hi + 1) <==> InRegion(q, root, lo, hi) || q == k
    {
      if InRegion(q, root, lo, hi + 1) && PageOf(q) == hi { PageOfInjective(q, k); }
    }
  }

  lemma RegionFreedLeaf(m: Mem, g: Shape, m': Mem, g': Shape, root: nat, lo: nat, hi: nat, k: Place)
    requires RegionFreed(m, g, m', g', root, lo, hi)
    ensures k in g'.leaves <==> k in g.leaves && !InRegion(k, root, lo, hi)
    ensures k.Space? && k in g.at ==> k in g'.at
  {
    assert Swept(0);
  }

  /** The pages that stay keep what they show. */
  lemma RegionFreedView(m: Mem, g: Shape, m': Mem, g': Shape, root: nat, lo: nat, hi: nat)
    requires Inv(m, g) && RegionFreed(m, g, m', g', root, lo, hi)
    ensures forall k :: k in g'.leaves ==> k in g.leaves && PageAt(m'.words, g'.leaves[k]) == PageAt(m.words, g.leaves[k])
    ensures forall k :: k in g.leaves && k !in g'.leaves ==> InRegion(k, root, lo, hi)
  {
    assert Swept(0);
    forall k | k in g'.leaves ensures PageAt(m'.words, g'.leaves[k]) == PageAt(m.words, g.leaves[k]) {
      LeafFrame(m, g, k);
      LeafContents(m, g, k, m'.words);
    }
  }

  /** `free_region`; address 0 is the null pointer, which `free_page` refuses. */
  method FreeRegion(mach: Machine, vaddr: nat, size: nat)
    requires mach.Idle() && 0 < vaddr && PagesUp(vaddr + size) <= USER_PAGES
    modifies mach`firstUsable, mach`words, mach`g, mach.refs
    ensures mach.Idle()
    ensures RegionFreed(old(mach.Now()), old(mach.g), mach.Now(), mach.g, mach.pml4, vaddr / PAGE_SIZE, PagesUp(vaddr + size))
  {
    ghost var m, g := mach.Now(), mach.g;
    var i, end := vaddr, PagesUp(vaddr + size) * PAGE_SIZE;
    ghost var lo, hi := vaddr / PAGE_SIZE, PagesUp(vaddr + size);
    NextPage(i, hi);
    RegionFreedNone(m, g, mach.pml4, lo);
    while i < end
      invariant 0 < i && lo <= i / PAGE_SIZE <= hi && (i < end <==> i / PAGE_SIZE < hi)
      invariant mach.Idle()
      invariant RegionFreed(m, g, mach.Now(), mach.g, mach.pml4, lo, i / PAGE_SIZE)
      decreases end - i
    {
      ghost var m1, g1 := mach.Now(), mach.g;
      WalkNext(i, hi);
      var r := mach.FreePage(i);
      RegionFreedStep(m, g, m1, g1, mach.Now(), mach.g, mach.pml4, lo, i / PAGE_SIZE, i);
      i := i + PAGE_SIZE;
    }
  }

  // ---------------------------------------------------------------- memset over user pages

  /** `data` with its first `n` words cleared. */
  function Cleared(data: seq<Word>, n: nat): (r: seq<Word>)
    requires n <= |data|
    ensures |r| == |data|
  {
    seq(|data|, i requires 0 <= i < |data| => if i < n then ZERO_WORD else data[i])
  }

  function Zeros(): (z: seq<Word>)
    ensures |z| == ENTRIES
  {
    seq(ENTRIES, _ => ZERO_WORD)
  }

  method ClearPage(mach: Machine, addr: nat)
    requires mach.Idle() && addr / PAGE_SIZE < USER_PAGES
    requires var k := SlotOf(mach.pml4, GetPageEntry(addr)); k in mach.g.leaves && mach.g.leaves[k].rw && mach.g.leaves[k].user
    modifies mach`words
    ensures mach.Idle()
    ensures var k := SlotOf(mach.pml4, GetPageEntry(addr));
            var before := ViewOf(old(mach.words), mach.g.leaves);
            ViewOf(mach.words, mach.g.leaves) == before[k := before[k].(data := Zeros())]
  {
    ghost var k := SlotOf(mach.pml4, GetPageEntry(addr));
    ghost var before := ViewOf(mach.words, mach.g.leaves);
    ghost var data := before[k].data;
    assert Cleared(data, 0) == data;
    var i := 0;
    while i < ENTRIES
      invariant i <= ENTRIES && mach.Idle()
      invariant ViewOf(mach.words, mach.g.leaves) == before[k := before[k].(data := Cleared(data, i))]
    {
      var stored := Store(mach, addr, i, ZERO_WORD);
      assert Cleared(data, i)[i := ZERO_WORD] == Cleared(data, i + 1);
      i := i + 1;
    }
    assert Cleared(data, ENTRIES) == Zeros();
  }

  /** The pages `lo .. hi` of the space read as zeros, the others as before. */
  ghost predicate RegionCleared(before: View, after: View, root: nat, lo: nat, hi: nat) {
    after.Keys == before.Keys
    && forall k :: k in before ==> after[k] == if InRegion(k, root, lo, hi) then before[k].(data := Zeros()) else before[k]
  }

  lemma RegionClearedStep(before: View, mid: View, root: nat, lo: nat, hi: nat, i: nat)
    requires RegionCleared(before, mid, root, lo, hi) && lo <= hi < USER_PAGES && i / PAGE_SIZE == hi
    requires SlotOf(root, GetPageEntry(i)) in mid
    ensures var k := SlotOf(root, GetPageEntry(i)); RegionCleared(before, mid[k := mid[k].(data := Zeros())], root, lo, hi + 1)
  {
    var k := SlotOf(root, GetPageEntry(i));
    SlotFacts(root, i);
    forall q {:trigger InRegion(q, root, lo, hi + 1)}
      ensures InRegion(q, root, lo, hi + 1) <==> InRegion(q, root, lo, hi) || q == k
    {
      if InRegion(q, root, lo, hi + 1) && PageOf(q) == hi { PageOfInjective(q, k); }
    }
  }

  ghost predicate AllWritable(leaves: map<Place, Word>, root: nat, lo: nat, hi: nat) {
    forall k :: InRegion(k, root, lo, hi) ==> k in leaves && leaves[k].rw && leaves[k].user
  }

  method ClearRegion(mach: Machine, lo: nat, hi: nat)
    requires mach.Idle() && lo <= hi <= USER_PAGES && AllWritable(mach.g.leaves, mach.pml4, lo, hi)
    modifies mach`words
    ensures mach.Idle()
    ensures RegionCleared(ViewOf(old(mach.words), mach.g.leaves), ViewOf(mach.words, mach.g.leaves), mach.pml4, lo, hi)
  {
    ghost var before := ViewOf(mach.words, mach.g.leaves);
    var page := lo;
    while page < hi
      invariant lo <= page <= hi && mach.Idle()
      invariant RegionCleared(before, ViewOf(mach.words, mach.g.leaves), mach.pml4, lo, page)
    {
      var addr := page * PAGE_SIZE;
      SlotFacts(mach.pml4, addr);
      assert InRegion(SlotOf(mach.pml4, GetPageEntry(addr)), mach.pml4, lo, hi);
      ghost var mid := ViewOf(mach.words, mach.g.leaves);
      ClearPage(mach, addr);
      RegionClearedStep(before, mid, mach.pml4, lo, page, addr);
      page := page + 1;
    }
  }

  // ---------------------------------------------------------------- set_brk and sbrk

  const USER_MAX: nat := 0x7FFF_FFFF_FFFF

  const HEAP_FLAGS := Word(0, false, true, true, false, 0)

  /** The space maps `base` and, apart from it, exactly the heap pages `lo .. hi`. */
  ghost predicate HeapExact(leaves: map<Place, Word>, root: nat, base: set<Place>, lo: nat, hi: nat) {
    && lo <= hi
    && (forall k :: k in leaves && RootOf(k) == root ==> k in base || InRegion(k, root, lo, hi))
    && (forall k :: k in base ==> k in leaves && !InRegion(k, root, lo, hi))
    && AllPresent(leaves, root, lo, hi)
  }

  ghost predicate AllPresent(leaves: map<Place, Word>, root: nat, lo: nat, hi: nat) {
    forall k :: InRegion(k, root, lo, hi) ==> k in leaves
  }

  /** Some page `lo .. hi` of the space lies in `base`. */
  ghost predicate Collides(base: set<Place>, root: nat, lo: nat, hi: nat) {
    exists k :: k in base && InRegion(k, root, lo, hi)
  }

  /** What growing and shrinking do to the view: kept pages keep their contents, new ones are zero. */
  ghost predicate HeapView(before: View, after: View, root: nat, lo: nat, hi: nat) {
    && (forall k :: k in before && k in after ==> after[k] == before[k])
    && (forall k :: k in after && k !in before ==> InRegion(k, root, lo, hi) && after[k] == Page(Zeros(), true, true, 0))
    && (forall k :: k in before && k !in after ==> InRegion(k, root, hi, lo))
  }

  lemma HeapGrows(g: Shape, leaves: map<Place, Word>, root: nat, base: set<Place>, lo: nat, mid: nat, hi: nat)
    requires HeapExact(g.leaves, root, base, lo, mid) && mid <= hi
    requires RegionMapped(g, leaves, root, mid, hi - mid, HEAP_FLAGS, Fresh)
    ensures HeapExact(leaves, root, base, lo, hi) && AllWritable(leaves, root, mid, hi)
  {
    assert Spread(0);
    forall k {:trigger InRegion(k, root, lo, hi)}
      ensures InRegion(k, root, lo, hi) <==> InRegion(k, root, lo, mid) || InRegion(k, root, mid, hi)
    {
    }
  }

  lemma HeapCollides(g: Shape, root: nat, base: set<Place>, lo: nat, mid: nat, hi: nat)
    requires HeapExact(g.leaves, root, base, lo, mid) && Overlaps(g.leaves, root, mid, hi)
    ensures Collides(base, root, mid, hi)
  {
    var k :| k in g.leaves && InRegion(k, root, mid, hi);
    assert k in base;
  }

  lemma HeapShrinks(m: Mem, g: Shape, m': Mem, g': Shape, root: nat, base: set<Place>, lo: nat, mid: nat, hi: nat)
    requires HeapExact(g.leaves, root, base, lo, hi) && lo <= mid <= hi
    requires RegionFreed(m, g, m', g', root, mid, hi)
    ensures HeapExact(g'.leaves, root, base, lo, mid)
  {
    assert Swept(0);
    forall k {:trigger InRegion(k, root, lo, hi)}
      ensures InRegion(k, root, lo, hi) <==> InRegion(k, root, lo, mid) || InRegion(k, root, mid, hi)
    {
    }
  }

  /** Pages kept by a mapping step show what they showed. */
  lemma GrownView(m: Mem, g: Shape, m': Mem, g': Shape, k: Place)
    requires Inv(m, g) && Grown(m, g, m', g') && k in g.leaves && k in g'.leaves && g'.leaves[k] == g.leaves[k]
    ensures PageAt(m'.words, g'.leaves[k]) == PageAt(m.words, g.leaves[k])
  {
    LeafFrame(m, g, k);
    GrownData(m, g, m', g', g.leaves[k].frame);
    SameContents(m.words, g.leaves[k].frame, m'.words, g.leaves[k].frame);
  }

  lemma GrowView(m: Mem, g: Shape, m': Mem, g': Shape, root: nat, lo: nat, hi: nat, after: View)
    requires Inv(m, g) && Grown(m, g, m', g') && lo <= hi
    requires RegionMapped(g, g'.leaves, root, lo, hi - lo, HEAP_FLAGS, Fresh)
    requires RegionCleared(ViewOf(m'.words, g'.leaves), after, root, lo, hi)
    ensures HeapView(ViewOf(m.words, g.leaves), after, root, lo, hi)
  {
    assert Spread(0);
    forall k | k in g.leaves ensures after[k] == PageAt(m.words, g.leaves[k]) {
      GrownView(m, g, m', g', k);
    }
  }

  /** The break of one task; `base` is what else its address space maps. */
  class Task {
    const mach: Machine
    const root: nat
    const initialBrk: nat
    ghost const base: set<Place>
    var brk: nat

    ghost predicate Valid()
      reads this, mach, mach.refs
    {
      && mach.Idle() && mach.pml4 == root && 0 < initialBrk <= brk <= USER_MAX
      && HeapExact(mach.g.leaves, root, base, PagesUp(initialBrk), PagesUp(brk))
    }

    ghost function Pages(): View
      reads this, mach
    {
      ViewOf(mach.words, mach.g.leaves)
    }

    /** A task right after its program was loaded: no heap page yet. */
    constructor (mach: Machine, initialBrk: nat)
      requires mach.Idle() && 0 < initialBrk <= USER_MAX
      ensures Valid() && this.mach == mach && root == mach.pml4 && this.initialBrk == brk == initialBrk
      ensures base == set k | k in mach.g.leaves && RootOf(k) == root
    {
      this.mach := mach;
      root := mach.pml4;
      this.initialBrk := initialBrk;
      brk := initialBrk;
      base := set k | k in mach.g.leaves && RootOf(k) == mach.pml4;
    }

    method Grow(lo: nat, hi: nat) returns (s: Status)
      requires Valid() && lo == PagesUp(brk) <= hi <= USER_PAGES
      modifies mach`firstUsable, mach`words, mach`g, mach.refs
      ensures s == AlreadyMapped ==> Collides(base, root, lo, hi)
      ensures s == OutOfMemory ==> mach.Exhausted()
      ensures s == Done ==> && mach.Idle() && HeapExact(mach.g.leaves, root, base, PagesUp(initialBrk), hi)
                            && HeapView(old(Pages()), Pages(), root, lo, hi) && !Collides(base, root, lo, hi)
    {
      ghost var m, g := mach.Now(), mach.g;
      s := mach.AllocRegion(lo * PAGE_SIZE, (hi - lo) * PAGE_SIZE, HEAP_FLAGS, Fresh);
      if s == AlreadyMapped { HeapCollides(g, root, base, PagesUp(initialBrk), lo, hi); }
      if s != Done { return; }
      HeapGrows(g, mach.g.leaves, root, base, PagesUp(initialBrk), lo, hi);
      ghost var m1 := mach.Now();
      ClearRegion(mach, lo, hi);
      GrowView(m, g, m1, mach.g, root, lo, hi, Pages());
    }

    /** `set_brk` of a running task; 0 stands for the null pointer. A status other than `Done` is a panic. */
    method SetBrk(addr: nat) returns (r: nat, s: Status)
      requires Valid()
      modifies this`brk, mach`firstUsable, mach`words, mach`g, mach.refs
      ensures s == AlreadyMapped ==> Collides(base, root, PagesUp(old(brk)), PagesUp(addr))
      ensures s == OutOfMemory ==> mach.Exhausted()
      ensures s == Done ==> Valid() && HeapView(old(Pages()), Pages(), root, PagesUp(old(brk)), PagesUp(addr))
      ensures s == Done && !(initialBrk <= addr <= USER_MAX) ==> brk == old(brk) && r == (if addr == 0 then brk else 0)
      ensures s == Done && initialBrk <= addr <= USER_MAX ==> brk == addr && r == addr
    {
      s := Done;
      if addr == 0 { return brk, Done; }
      if addr < initialBrk || addr > USER_MAX { return 0, Done; }
      var oldEnd, newEnd := PagesUp(brk), PagesUp(addr);
      ghost var m, g := mach.Now(), mach.g;
      if newEnd > oldEnd {
        s := Grow(oldEnd, newEnd);
        if s != Done { return 0, s; }
      } else if newEnd < oldEnd {
        FreeRegion(mach, newEnd * PAGE_SIZE, (oldEnd - newEnd) * PAGE_SIZE);
        HeapShrinks(m, g, mach.Now(), mach.g, root, base, PagesUp(initialBrk), newEnd, oldEnd);
        RegionFreedView(m, g, mach.Now(), mach.g, root, newEnd, oldEnd);
      }
      brk := addr;
      r := addr;
    }

    /** `sbrk`: the old break, or -1 with nothing changed. */
    method Sbrk(increment: int) returns (r: int, s: Status)
      requires Valid() && -0x8000_0000_0000_0000 <= increment < 0x8000_0000_0000_0000
      modifies this`brk, mach`firstUsable, mach`words, mach`g, mach.refs
      ensures s == Done ==> Valid()
      ensures s == Done ==> var target := old(brk) + increment;
                if initialBrk <= target <= USER_MAX then r == old(brk) && brk == target
                else r == -1 && brk == old(brk) && Pages() == old(Pages())
      ensures s == OutOfMemory ==> mach.Exhausted()
      ensures s == AlreadyMapped ==> increment > 0 && Collides(base, root, PagesUp(old(brk)), PagesUp(old(brk) + increment))
    {
      s := Done;
      r := brk;
      if increment > 0 {
        if increment > 0xFFFF_FFFF_FFFF_FFFF - brk { return -1, Done; }
        if brk + increment > USER_MAX { return -1, Done; }
        var p;
        p, s := SetBrk(brk + increment);
        if p == 0 { r := -1; }
      } else if increment < 0 {
        if -increment > brk - initialBrk { return -1, Done; }
        var p;
        p, s := SetBrk(brk + increment);
        if p == 0 { r := -1; }
      }
    }
  }
}
