/** The operations of kernel/memory/paging.c on physical memory, step by step as the code does them. */
module PageMachine {
  import opened Common
  import opened Places
  import opened PageTables

  /** `OutOfMemory` and `AlreadyMapped` are the two kernel panics; nothing runs after them. */
  datatype Status = Done | OutOfMemory | AlreadyMapped

  /** Where the frames of a mapped region come from. */
  datatype Backing = Fresh | Device(first: nat) | ZeroPage

  /** The leaf entry that a mapping loop writes for the `n`-th page of a region, given the frame chosen for it. */
  function RegionWord(flags: Word, backing: Backing, frame: nat): (w: Word)
    ensures w.frame == frame && w.present && w.user == flags.user && w.other == flags.other
    ensures w.rw || w.cow <==> flags.rw || flags.cow
    ensures if backing.ZeroPage? then !w.rw else w.rw == flags.rw && w.cow == flags.cow
  {
    if backing.ZeroPage? then flags.(frame := frame, present := true, rw := false, cow := flags.cow || flags.rw)
    else flags.(frame := frame, present := true)
  }

  ghost predicate RegionFrame(backing: Backing, n: nat, zero: nat, frame: nat) {
    match backing
    case Fresh => true
    case Device(first) => frame == first + n
    case ZeroPage => frame == zero
  }

  /** The callers' side of `alloc_mmio_region` in the user half: pinned frames, never writable. */
  ghost predicate BackingOk(m: Mem, g: Shape, flags: Word, backing: Backing, n: nat) {
    backing.Device? ==> !flags.rw && backing.first + n in g.pins && InUse(m, g, backing.first + n)
  }

  /** `PAGE_ALIGN` is `PAGE_SIZE * PagesUp`. */
  function PagesUp(addr: nat): (n: nat)
    ensures addr <= n * PAGE_SIZE < addr + PAGE_SIZE
  {
    (addr + PAGE_SIZE - 1) / PAGE_SIZE
  }

  /** The arithmetic of one iteration of a mapping loop, at address `i` before page `hi`. */
  lemma WalkNext(i: nat, hi: nat)
    requires i / PAGE_SIZE < hi <= USER_PAGES
    ensures InBounds(GetPageEntry(i))
    ensures (i + PAGE_SIZE) / PAGE_SIZE == i / PAGE_SIZE + 1
    ensures i + PAGE_SIZE < hi * PAGE_SIZE <==> i / PAGE_SIZE + 1 < hi
    ensures i + PAGE_SIZE < hi * PAGE_SIZE ==> Advance(GetPageEntry(i)) == GetPageEntry(i + PAGE_SIZE)
  {
    EntryOfPage(i);
    NextPage(i, hi);
    NextPage(i + PAGE_SIZE, hi);
    if i / PAGE_SIZE + 1 < hi { AdvanceIsNextPage(i); }
  }

  lemma NextPage(i: nat, hi: nat)
    ensures i < hi * PAGE_SIZE <==> i / PAGE_SIZE < hi
    ensures (i + PAGE_SIZE) / PAGE_SIZE == i / PAGE_SIZE + 1
  {
  }

  ghost predicate InUse(m: Mem, g: Shape, f: nat) {
    f < |m.refs| && m.refs[f] > 0 && f !in g.owner
  }

  /** Frames in use as data stay in use and keep their words. */
  ghost predicate DataKept(m: Mem, g: Shape, m': Mem, g': Shape) {
    && (forall f :: InUse(m, g, f) ==> InUse(m', g', f))
    && (forall a :: a in m.words && InUse(m, g, a.frame) ==> a in m'.words && m'.words[a] == m.words[a])
  }

  /** The first `n` pages of a region starting at page `lo` have been mapped, and nothing else has changed. */
  ghost predicate RegionLeaves(g: Shape, leaves: map<Place, Word>, root: nat, lo: nat, n: nat, flags: Word, backing: Backing) {
    && (forall k :: k in g.leaves ==> k in leaves && leaves[k] == g.leaves[k] && !InRegion(k, root, lo, lo + n))
    && (forall k :: InRegion(k, root, lo, lo + n) ==> k in leaves)
    && (forall k :: k in leaves && k !in g.leaves ==>
          && InRegion(k, root, lo, lo + n)
          && RegionFrame(backing, PageOf(k) - lo, g.zero, leaves[k].frame)
          && leaves[k] == RegionWord(flags, backing, leaves[k].frame))
    && (backing.Fresh? ==> forall k :: k in leaves && k !in g.leaves ==>
          leaves[k].frame !in g.pins && forall q :: q in leaves && q != k ==> leaves[q].frame != leaves[k].frame)
  }

  /** A frame that nothing names yet. */
  ghost predicate Unnamed(leaves: map<Place, Word>, pins: multiset<nat>, f: nat) {
    f !in pins && forall q :: q in leaves ==> leaves[q].frame != f
  }

  /** The entry of the n-th page of a region: permissions as asked for, on a frame of its own, on the device's n-th frame, or on the zero page. */
  ghost predicate MappedAs(g: Shape, k: Place, flags: Word, backing: Backing, n: nat) {
    && k in g.leaves && g.leaves[k].present && g.leaves[k].user == flags.user && g.leaves[k].other == flags.other
    && (g.leaves[k].rw || g.leaves[k].cow <==> flags.rw || flags.cow)
    && match backing
       case Fresh => g.leaves[k].rw == flags.rw && g.leaves[k].frame !in g.pins
                     && forall q :: q in g.leaves && q != k ==> g.leaves[q].frame != g.leaves[k].frame
       case Device(first) => g.leaves[k].rw == flags.rw && g.leaves[k].frame == first + n
       case ZeroPage => !g.leaves[k].rw && g.leaves[k].frame == g.zero
  }

  /** Every page `lo .. hi` of the space is new, and is mapped as asked for. */
  ghost predicate RegionAs(g: Shape, g': Shape, root: nat, lo: nat, hi: nat, flags: Word, backing: Backing) {
    forall k :: InRegion(k, root, lo, hi) ==> k !in g.leaves && MappedAs(g', k, flags, backing, PageOf(k) - lo)
  }

  lemma RegionIsAs(g: Shape, g': Shape, root: nat, lo: nat, n: nat, flags: Word, backing: Backing)
    requires RegionMapped(g, g'.leaves, root, lo, n, flags, backing) && g'.pins == g.pins && g'.zero == g.zero
    ensures RegionAs(g, g', root, lo, lo + n, flags, backing)
  {
    assert Spread(0);
  }

  ghost predicate RegionMapped(g: Shape, leaves: map<Place, Word>, root: nat, lo: nat, n: nat, flags: Word, backing: Backing) {
    forall z {:trigger Spread(z)} :: Spread(z) ==> RegionLeaves(g, leaves, root, lo, n, flags, backing)
  }

  lemma RegionNone(g: Shape, root: nat, lo: nat, flags: Word, backing: Backing)
    ensures RegionMapped(g, g.leaves, root, lo, 0, flags, backing)
  {
  }

  /** One more iteration of the mapping loop, at address `i`. */
  lemma RegionStep(g: Shape, leaves: map<Place, Word>, root: nat, lo: nat, n: nat, flags: Word, backing: Backing, i: nat, f: nat)
    requires RegionMapped(g, leaves, root, lo, n, flags, backing)
    requires i / PAGE_SIZE == lo + n && lo + n < USER_PAGES
    requires SlotOf(root, GetPageEntry(i)) !in leaves && RegionFrame(backing, n, g.zero, f)
    requires backing.Fresh? ==> Unnamed(leaves, g.pins, f)
    ensures RegionMapped(g, leaves[SlotOf(root, GetPageEntry(i)) := RegionWord(flags, backing, f)], root, lo, n + 1, flags, backing)
  {
    assert Spread(0);
    SlotFacts(root, i);
    RegionGrows(g, leaves, root, lo, n, flags, backing, SlotOf(root, GetPageEntry(i)), f);
  }

  /** Some page `lo .. hi` of the space is mapped. */
  ghost predicate Overlaps(leaves: map<Place, Word>, root: nat, lo: nat, hi: nat) {
    exists k :: k in leaves && InRegion(k, root, lo, hi)
  }

  lemma RegionClash(g: Shape, leaves: map<Place, Word>, root: nat, lo: nat, n: nat, flags: Word, backing: Backing, i: nat, hi: nat)
    requires RegionMapped(g, leaves, root, lo, n, flags, backing)
    requires i / PAGE_SIZE == lo + n && lo + n < hi <= USER_PAGES && SlotOf(root, GetPageEntry(i)) in leaves
    ensures Overlaps(g.leaves, root, lo, hi)
  {
    assert Spread(0);
    SlotFacts(root, i);
    assert InRegion(SlotOf(root, GetPageEntry(i)), root, lo, hi);
  }

  lemma RegionGrows(g: Shape, leaves: map<Place, Word>, root: nat, lo: nat, n: nat, flags: Word, backing: Backing, k: Place, f: nat)
    requires RegionLeaves(g, leaves, root, lo, n, flags, backing) && InRegion(k, root, lo + n, lo + n + 1) && k !in leaves
    requires RegionFrame(backing, n, g.zero, f) && (backing.Fresh? ==> Unnamed(leaves, g.pins, f))
    ensures RegionLeaves(g, leaves[k := RegionWord(flags, backing, f)], root, lo, n + 1, flags, backing)
  {
    forall q {:trigger InRegion(q, root, lo, lo + n + 1)}
      ensures InRegion(q, root, lo, lo + n + 1) <==> InRegion(q, root, lo, lo + n) || q == k
    {
      if InRegion(q, root, lo, lo + n + 1) && PageOf(q) == lo + n {
        PageOfInjective(q, k);
      }
    }
  }

  ghost predicate TablesKept(g: Shape, g': Shape) {
    g'.pins == g.pins && g'.zero == g.zero && forall k :: k in g.at ==> k in g'.at && g'.at[k] == g.at[k]
  }

  predicate Spread(z: int) {
    true
  }

  /** Tables and data stay; new ones may appear. (Guarded as `Inv` is.) */
  ghost predicate Grown(m: Mem, g: Shape, m': Mem, g': Shape) {
    forall z {:trigger Spread(z)} :: Spread(z) ==> TablesKept(g, g') && DataKept(m, g, m', g')
  }

  lemma GrownTransitive(m: Mem, g: Shape, m1: Mem, g1: Shape, m2: Mem, g2: Shape)
    requires Grown(m, g, m1, g1) && Grown(m1, g1, m2, g2)
    ensures Grown(m, g, m2, g2)
  {
    assert Spread(0);
  }

  lemma GrownReflexive(m: Mem, g: Shape)
    ensures Grown(m, g, m, g)
  {
  }

  lemma GrownTable(m: Mem, g: Shape, m': Mem, g': Shape, k: Place)
    requires Grown(m, g, m', g')
    ensures g'.pins == g.pins && g'.zero == g.zero
    ensures k in g.at ==> k in g'.at && g'.at[k] == g.at[k]
  {
    assert Spread(0);
  }

  lemma GrownData(m: Mem, g: Shape, m': Mem, g': Shape, f: nat)
    requires Grown(m, g, m', g') && InUse(m, g, f)
    ensures InUse(m', g', f)
    ensures forall i: nat :: Addr(f, i) in m.words ==> Addr(f, i) in m'.words && m'.words[Addr(f, i)] == m.words[Addr(f, i)]
  {
    assert Spread(0);
  }

  lemma BackingKept(m: Mem, g: Shape, m': Mem, g': Shape, flags: Word, backing: Backing, n: nat)
    requires Grown(m, g, m', g') && BackingOk(m, g, flags, backing, n)
    ensures BackingOk(m', g', flags, backing, n)
  {
    assert Spread(0);
  }

  /** The leaf at `k` is gone, tables may have gone on the way to it, and every data frame keeps its words. */
  ghost predicate Pruned(m: Mem, g: Shape, m': Mem, g': Shape, k: Place) {
    && g'.leaves == g.leaves - {k} && g'.pins == g.pins && g'.zero == g.zero
    && (forall q :: q in g'.at ==> q in g.at && g'.at[q] == g.at[q])
    && (forall q :: q in g.at && q !in g'.at ==> Under(k, q) && q.At?)
    && m'.words.Keys == m.words.Keys && (forall a :: a in m.words && a.frame !in g.owner ==> m'.words[a] == m.words[a])
  }

  ghost predicate AllBacked(m: Mem, g: Shape, flags: Word, backing: Backing, pages: nat) {
    forall n: nat :: n < pages ==> BackingOk(m, g, flags, backing, n)
  }

  lemma AllBackedKept(m: Mem, g: Shape, m': Mem, g': Shape, flags: Word, backing: Backing, pages: nat, n: nat)
    requires Grown(m, g, m', g') && AllBacked(m, g, flags, backing, pages) && n < pages
    ensures BackingOk(m', g', flags, backing, n)
  {
    assert BackingOk(m, g, flags, backing, n);
    BackingKept(m, g, m', g', flags, backing, n);
  }

  lemma PrunedClear(m: Mem, g: Shape, m': Mem, g': Shape, k: Place, f: nat, i: nat)
    requires g' == g.(leaves := g.leaves - {k}) && f in g.owner && Addr(f, i) in m.words
    requires m'.words == m.words[Addr(f, i) := ZERO_WORD]
    ensures Pruned(m, g, m', g', k)
  {
  }

  lemma PrunedReap(m: Mem, g: Shape, m1: Mem, g1: Shape, m2: Mem, g2: Shape, k: Place, q: Place, f: nat, i: nat)
    requires Pruned(m, g, m1, g1, k) && RemoveTable(g1, q, g2) && q.At? && Under(k, q)
    requires f in g.owner && Addr(f, i) in m1.words && m2.words == m1.words[Addr(f, i) := ZERO_WORD]
    ensures Pruned(m, g, m2, g2, k)
  {
  }

  lemma AddTableGrows(m: Mem, g: Shape, f: nat, k: Place, l: nat, m': Mem, g': Shape)
    requires f < |m.refs| && m.refs[f] == 0 && k !in g.at
    requires m' == Mem(ClearFrame(m.words, f), m.refs[f := 1], f + 1)
    requires g' == g.(at := g.at[k := Table(f, l)], owner := g.owner[f := k], held := g.held + {k})
    ensures Grown(m, g, m', g')
  {
  }

  lemma SlotGrows(m: Mem, g: Shape, f: nat, i: nat, w: Word, m': Mem, g': Shape)
    requires f in g.owner && m'.words == m.words[Addr(f, i) := w]
    requires |m'.refs| == |m.refs| && forall h :: 0 <= h < |m.refs| ==> m'.refs[h] >= m.refs[h]
    requires g'.at == g.at && g'.owner == g.owner && g'.pins == g.pins && g'.zero == g.zero
    ensures Grown(m, g, m', g')
  {
  }

  /** The frame of a new leaf word is pinned, or a free one that the search has just found. */
  ghost predicate Supplied(m: Mem, g: Shape, w: Word, first': nat) {
    && w.present && w.frame < |m.refs| && w.frame !in g.owner
    && ((w.frame in g.pins && !w.rw) || m.refs[w.frame] == 0)
    && if w.frame in g.pins then first' == m.first
       else first' == w.frame + 1 && forall j :: m.first <= j < w.frame ==> m.refs[j] > 0
  }

  lemma MapPageInv(m: Mem, g: Shape, k: Place, w: Word, m': Mem, g': Shape)
    requires Inv(m, g) && SetLeaf(m.words, |m.refs|, g, k, w, m'.words, g') && k !in g.leaves
    requires (w.frame in g.pins && !w.rw) || m.refs[w.frame] == 0
    requires m'.refs == m.refs[w.frame := m.refs[w.frame] + 1]
    requires if w.frame in g.pins then m'.first == m.first
             else m'.first == w.frame + 1 && forall j :: m.first <= j < w.frame ==> m.refs[j] > 0
    ensures Inv(m', g') && Grown(m, g, m', g')
  {
    Open(m, g);
    forall q | q in g.leaves && g.leaves[q].frame == w.frame ensures !g.leaves[q].rw {
      if g.leaves[q].rw { SoleReference(m.refs, m.first, g, q); }
    }
    if w.frame !in g.pins { FreeFrameUnnamed(m.refs, m.first, g, w.frame); }
    MapCounts(m.refs, m.first, g, k, w, m'.first, g');
    SetLeafInv(m, g, k, w, m', g');
    SlotGrows(m, g, g.at[Up(k)].frame, k.index, w, m', g');
  }

  /** The local variables of a mapping loop: carried indices, cached table pointers and their stale flags. */
  datatype Walk = Walk(idx: Indices, pml4Changed: bool, pdptChanged: bool, pdChanged: bool, pdpt: nat, pd: nat, pt: nat)

  predicate InBounds(e: Indices) {
    e.pml4 < USER_ENTRIES && e.pdpt < ENTRIES && e.pd < ENTRIES && e.pt < ENTRIES
  }

  /** A pointer not marked stale is the frame of the table on the path of the current indices. */
  ghost predicate Cached(g: Shape, root: nat, w: Walk) {
    var p3 := At(Space(root), w.idx.pml4);
    var p2 := At(p3, w.idx.pdpt);
    var p1 := At(p2, w.idx.pd);
    && (w.pml4Changed ==> w.pdptChanged) && (w.pdptChanged ==> w.pdChanged)
    && (!w.pml4Changed ==> p3 in g.at && g.at[p3] == Table(w.pdpt, 3))
    && (!w.pdptChanged ==> p2 in g.at && g.at[p2] == Table(w.pd, 2))
    && (!w.pdChanged ==> p1 in g.at && g.at[p1] == Table(w.pt, 1))
  }

  /** The tables found on the way to a leaf entry. */
  datatype Tables = Tables(pdpt: nat, pd: nat, pt: nat)

  ghost predicate OnPath(g: Shape, root: nat, e: Indices, t: Tables) {
    var p3 := At(Space(root), e.pml4);
    var p2 := At(p3, e.pdpt);
    var p1 := At(p2, e.pd);
    p3 in g.at && g.at[p3] == Table(t.pdpt, 3) && p2 in g.at && g.at[p2] == Table(t.pd, 2)
    && p1 in g.at && g.at[p1] == Table(t.pt, 1)
  }

  ghost predicate AllTaken(refs: seq<nat>) {
    forall f :: 0 <= f < |refs| ==> refs[f] > 0
  }

  /** Some slot of the table stands for a table or a page. */
  ghost predicate Inhabited(g: Shape, t: Place) {
    exists q: Place {:trigger Up(q)} :: q.At? && Up(q) == t && (q in g.at || q in g.leaves)
  }

  /** A table that is there is not empty. */
  ghost predicate Used(g: Shape, t: Place) {
    t in g.at ==> Inhabited(g, t)
  }

  /** The three tables below the top level on the way to an address. */
  ghost predicate PathUsed(g: Shape, root: nat, e: Indices) {
    && Used(g, At(At(At(Space(root), e.pml4), e.pdpt), e.pd))
    && Used(g, At(At(Space(root), e.pml4), e.pdpt)) && Used(g, At(Space(root), e.pml4))
  }

  /** Taking an empty table away leaves no other table empty but the one above it. */
  lemma StillUsed(g: Shape, q: Place, g': Shape, t: Place)
    requires (g' == g || RemoveTable(g, q, g')) && q.At? && t != Up(q) && Used(g, t)
    ensures Used(g', t)
  {
    if t in g'.at {
      var c: Place :| c.At? && Up(c) == t && (c in g.at || c in g.leaves);
      assert c in g'.at || c in g'.leaves;
    }
  }

  class Machine {
    var words: Words
    const refs: array<nat>
    var firstUsable: nat
    const zeroPage: nat
    var pml4: nat
    ghost var g: Shape

    constructor (words: Words, refs: array<nat>, firstUsable: nat, zeroPage: nat, root: nat, ghost g: Shape)
      requires Inv(Mem(words, refs[..], firstUsable), g) && Settled(g) && g.zero == zeroPage && Space(root) in g.at
      ensures Idle() && this.words == words && this.refs == refs && this.firstUsable == firstUsable
      ensures this.zeroPage == zeroPage && pml4 == root && this.g == g
    {
      this.words, this.refs, this.firstUsable := words, refs, firstUsable;
      this.zeroPage, pml4, this.g := zeroPage, root, g;
    }

    ghost function Now(): Mem
      reads this, refs
    {
      Mem(words, refs[..], firstUsable)
    }

    ghost predicate Valid()
      reads this, refs
    {
      Inv(Now(), g) && zeroPage == g.zero
    }

    /** No frame is free. */
    ghost predicate Exhausted()
      reads this, refs
    {
      forall z {:trigger Spread(z)} :: Spread(z) ==> AllTaken(refs[..])
    }

    lemma NothingFree()
      requires Inv(Now(), g) && forall j :: firstUsable <= j < refs.Length ==> refs[j] > 0
      ensures Exhausted()
    {
      Open(Now(), g);
      assert forall j :: 0 <= j < refs.Length ==> refs[j] > 0;
    }

    lemma NoneFree()
      requires Exhausted()
      ensures forall f :: 0 <= f < refs.Length ==> refs[f] > 0
    {
      assert Spread(0);
      assert forall f :: 0 <= f < refs.Length ==> refs[..][f] > 0;
    }

    /** What holds between two calls into the kernel. */
    ghost predicate Idle()
      reads this, refs
    {
      Valid() && Settled(g) && Space(pml4) in g.at
    }

    method GetAvailableAddress() returns (r: Option<nat>)
      requires firstUsable <= refs.Length
      modifies this`firstUsable
      ensures r.Some? ==> old(firstUsable) <= r.value < refs.Length && refs[r.value] == 0 && firstUsable == r.value + 1
                          && forall j :: old(firstUsable) <= j < r.value ==> refs[j] > 0
      ensures r.None? ==> firstUsable == old(firstUsable) && forall j :: firstUsable <= j < refs.Length ==> refs[j] > 0
    {
      var i := firstUsable;
      while i < refs.Length
        invariant firstUsable == old(firstUsable) <= i <= refs.Length
        invariant forall j :: firstUsable <= j < i ==> refs[j] > 0
      {
        if refs[i] == 0 {
          firstUsable := i + 1;
          return Some(i);
        }
        i := i + 1;
      }
      return None;
    }

    method SetRef(f: nat, n: nat)
      requires f < refs.Length
      modifies refs
      ensures refs[..] == old(refs[..])[f := n]
    {
      refs[f] := n;
    }

    method AllocatePhysicalPage() returns (r: Option<nat>)
      requires firstUsable <= refs.Length
      modifies this`firstUsable, this`words, refs
      ensures r.Some? ==> r.value < refs.Length && old(refs[..])[r.value] == 0
                          && (forall j :: old(firstUsable) <= j < r.value ==> old(refs[..])[j] > 0)
                          && Now() == Mem(ClearFrame(old(words), r.value), old(refs[..])[r.value := 1], r.value + 1)
      ensures r.None? ==> Now() == old(Now()) && forall j :: firstUsable <= j < refs.Length ==> refs[j] > 0
    {
      r := GetAvailableAddress();
      if r.Some? {
        SetRef(r.value, refs[r.value] + 1);
        words := ClearFrame(words, r.value);
      }
    }

    /** A cleared page that becomes a table, held by its creator: a new root, or the table for slot `where`. */
    method NewTable(ghost where: Option<Place>, ghost l: nat) returns (r: Option<nat>)
      requires Valid() && 1 <= l <= 4
      requires where.None? ==> l == 4
      requires where.Some? ==> && where.value !in g.at && where.value.At? && l < 4
                               && Up(where.value) in g.at && where.value.index < Limit(Up(where.value))
                               && g.at[Up(where.value)].level == l + 1
                               && Absent(words, g.at[Up(where.value)].frame, where.value.index)
      modifies this`firstUsable, this`words, this`g, refs
      ensures r.Some? ==>
        var k := if where.Some? then where.value else Space(r.value);
        && Valid() && k !in old(g).at && r.value !in old(g).owner
        && g == old(g).(at := old(g).at[k := Table(r.value, l)], owner := old(g).owner[r.value := k], held := old(g).held + {k})
        && words == ClearFrame(old(words), r.value)
        && Grown(old(Now()), old(g), Now(), g)
      ensures r.None? ==> Exhausted()
    {
      Basics(Now(), g);
      r := AllocatePhysicalPage();
      if r.None? { NothingFree(); }
      if r.Some? {
        ghost var k := if where.Some? then where.value else Space(r.value);
        ghost var g' := g.(at := g.at[k := Table(r.value, l)], owner := g.owner[r.value := k], held := g.held + {k});
        FreeFrame(old(Now()), g, r.value);
        NewTableInv(old(Now()), g, r.value, k, l, Now(), g');
        AddTableGrows(old(Now()), g, r.value, k, l, Now(), g');
        g := g';
      }
    }

    /** Installs a held table in its parent. */
    method Link(ghost k: Place, parent: nat, i: nat, child: nat)
      requires Valid() && k in g.at && k.At? && k in g.held && k !in g.torn && Up(k) in g.at && Up(k) !in g.torn
      requires parent == g.at[Up(k)].frame && i == k.index && child == g.at[k].frame
      modifies this`words, this`g
      ensures Valid() && g == old(g).(held := old(g).held - {k})
      ensures words == old(words)[Addr(parent, i) := LinkWord(child)]
      ensures Grown(old(Now()), old(g), Now(), g)
    {
      TableFrame(Now(), g, Up(k));
      words := words[Addr(parent, i) := LinkWord(child)];
      ghost var g' := g.(held := g.held - {k});
      LinkInv(old(Now()), g, k, LinkWord(child), Now(), g');
      SlotGrows(old(Now()), g, parent, i, LinkWord(child), Now(), g');
      g := g';
    }

    /** One level of the walk: the table that slot `i` of `up` names, made if the slot is empty. */
    method EnsureTable(ghost up: Place, table: nat, i: nat) returns (r: Option<nat>)
      requires Valid() && Settled(g) && up in g.at && g.at[up].frame == table && g.at[up].level > 1 && i < Limit(up)
      modifies this`firstUsable, this`words, this`g, refs
      ensures r.Some? ==>
        && Valid() && Settled(g)
        && At(up, i) in g.at && g.at[At(up, i)] == Table(r.value, old(g.at[up].level) - 1)
        && g.leaves == old(g).leaves && g.held == old(g).held
        && Grown(old(Now()), old(g), Now(), g)
      ensures r.None? ==> Exhausted()
    {
      TableFrame(Now(), g, up);
      TableBelow(Now(), g, up, i);
      var entry := words[Addr(table, i)];
      r := Some(entry.frame);
      if !entry.present {
        ghost var k := At(up, i);
        assert Up(k) == up;
        r := NewTable(Some(k), g.at[up].level - 1);
        label made:
        if r.Some? {
          Link(k, table, i, r.value);
          GrownTransitive(old(Now()), old(g), old@made(Now()), old@made(g), Now(), g);
        }
      }
    }

    /** The last level of a mapping loop: refuses a present slot, then writes and counts the leaf entry. */
    method MapPage(ghost k: Place, pt: nat, i: nat, flags: Word, backing: Backing, n: nat) returns (s: Status, phys: nat)
      requires Valid() && Settled(g) && k.At? && k.index == i && i < ENTRIES
      requires Up(k) in g.at && g.at[Up(k)] == Table(pt, 1)
      requires BackingOk(Now(), g, flags, backing, n)
      modifies this`firstUsable, this`words, this`g, refs
      ensures s == AlreadyMapped ==> k in old(g).leaves
      ensures s == OutOfMemory ==> Exhausted() && backing.Fresh?
      ensures s == Done ==>
        && Valid() && Settled(g) && k !in old(g).leaves
        && RegionFrame(backing, n, zeroPage, phys) && (backing.Fresh? ==> Unnamed(old(g).leaves, old(g).pins, phys))
        && g == old(g).(leaves := old(g).leaves[k := RegionWord(flags, backing, phys)])
        && Grown(old(Now()), old(g), Now(), g)
    {
      LeafBelow(Now(), g, Up(k), i);
      phys := zeroPage;
      if words[Addr(pt, i)].present { return AlreadyMapped, phys; }
      ghost var m := Now();
      var r := FrameFor(flags, backing, n);
      if r.None? { return OutOfMemory, phys; }
      phys := r.value;
      Enter(m, k, pt, i, RegionWord(flags, backing, phys));
      s := Done;
    }

    /** The frame that a loop of `alloc_region`, `alloc_mmio_region` or `alloc_zero_region` maps next. */
    method FrameFor(flags: Word, backing: Backing, n: nat) returns (r: Option<nat>)
      requires Valid() && BackingOk(Now(), g, flags, backing, n)
      modifies this`firstUsable
      ensures r.Some? && backing.Fresh? ==> Unnamed(g.leaves, g.pins, r.value)
      ensures r.Some? ==> RegionFrame(backing, n, zeroPage, r.value) && Supplied(old(Now()), g, RegionWord(flags, backing, r.value), firstUsable)
      ensures r.None? ==> Exhausted() && backing.Fresh?
    {
      Basics(Now(), g);
      match backing {
        case Fresh =>
          r := GetAvailableAddress();
          if r.Some? { FreeFrame(old(Now()), g, r.value); } else { NothingFree(); }
        case Device(first) => r := Some(first + n);
        case ZeroPage => r := Some(zeroPage);
      }
    }

    /** Writing the entry and counting its frame. */
    method Enter(ghost m: Mem, ghost k: Place, pt: nat, i: nat, w: Word)
      requires m == Now().(first := m.first) && Inv(m, g) && k.At? && k.index == i && i < ENTRIES && k !in g.leaves
      requires Up(k) in g.at && g.at[Up(k)] == Table(pt, 1) && zeroPage == g.zero
      requires Supplied(m, g, w, firstUsable)
      modifies this`words, this`g, refs
      ensures Valid() && g == old(g).(leaves := old(g).leaves[k := w]) && Grown(m, old(g), Now(), g)
    {
      words := words[Addr(pt, i) := w];
      SetRef(w.frame, refs[w.frame] + 1);
      ghost var g' := g.(leaves := g.leaves[k := w]);
      MapPageInv(m, g, k, w, Now(), g');
      g := g';
    }

    /** The pointer to the table in slot `i` of `up`: the cached one, or read (and made) again if it is stale. */
    method Follow(stale: bool, ghost up: Place, table: nat, i: nat, cached: nat) returns (r: Option<nat>)
      requires Idle() && up in g.at && g.at[up].frame == table && g.at[up].level > 1 && i < Limit(up)
      requires !stale ==> At(up, i) in g.at && g.at[At(up, i)] == Table(cached, g.at[up].level - 1)
      modifies this`firstUsable, this`words, this`g, refs
      ensures r.Some? ==>
        && Idle() && g.leaves == old(g).leaves && Grown(old(Now()), old(g), Now(), g)
        && At(up, i) in g.at && g.at[At(up, i)] == Table(r.value, old(g.at[up].level) - 1)
      ensures r.None? ==> Exhausted()
    {
      r := Some(cached);
      if stale {
        r := EnsureTable(up, table, i);
        if r.Some? { GrownTable(old(Now()), old(g), Now(), g, Space(pml4)); }
      } else {
        GrownReflexive(Now(), g);
      }
    }

    /** Makes the tables on the path of the current indices and refreshes the stale pointers. */
    method Descend(w: Walk) returns (ok: bool, w': Walk)
      requires Idle() && Cached(g, pml4, w) && InBounds(w.idx)
      modifies this`firstUsable, this`words, this`g, refs
      ensures ok ==> && Idle() && g.leaves == old(g).leaves && Grown(old(Now()), old(g), Now(), g)
                     && w'.idx == w.idx && !w'.pml4Changed && !w'.pdptChanged && !w'.pdChanged && Cached(g, pml4, w')
      ensures !ok ==> Exhausted()
    {
      w' := w;
      ok := false;
      TableFrame(Now(), g, Space(pml4));
      ghost var p3 := At(Space(pml4), w.idx.pml4);
      ghost var p2 := At(p3, w.idx.pdpt);
      ghost var p1 := At(p2, w.idx.pd);
      var pdpt := Follow(w.pml4Changed, Space(pml4), pml4, w.idx.pml4, w.pdpt);
      if pdpt.None? { return; }
      GrownTable(old(Now()), old(g), Now(), g, p2);
      GrownTable(old(Now()), old(g), Now(), g, p1);
      label top:
      var pd := Follow(w.pdptChanged, p3, pdpt.value, w.idx.pdpt, w.pd);
      if pd.None? { return; }
      GrownTransitive(old(Now()), old(g), old@top(Now()), old@top(g), Now(), g);
      GrownTable(old@top(Now()), old@top(g), Now(), g, p3);
      GrownTable(old@top(Now()), old@top(g), Now(), g, p1);
      label middle:
      var pt := Follow(w.pdChanged, p2, pd.value, w.idx.pd, w.pt);
      if pt.None? { return; }
      GrownTransitive(old(Now()), old(g), old@middle(Now()), old@middle(g), Now(), g);
      GrownTable(old@middle(Now()), old@middle(g), Now(), g, p3);
      GrownTable(old@middle(Now()), old@middle(g), Now(), g, p2);
      w' := Walk(w.idx, false, false, false, pdpt.value, pd.value, pt.value);
      ok := true;
    }

    /** One iteration of a mapping loop. */
    method MapNext(w: Walk, flags: Word, backing: Backing, n: nat) returns (s: Status, w': Walk, ghost phys: nat)
      requires Idle() && Cached(g, pml4, w) && InBounds(w.idx) && BackingOk(Now(), g, flags, backing, n)
      modifies this`firstUsable, this`words, this`g, refs
      ensures s == AlreadyMapped ==> SlotOf(pml4, w.idx) in old(g).leaves
      ensures s == OutOfMemory ==> Exhausted()
      ensures s == Done ==>
        && Idle() && Cached(g, pml4, w') && w'.idx == Advance(w.idx)
        && Grown(old(Now()), old(g), Now(), g)
        && SlotOf(pml4, w.idx) !in old(g).leaves && RegionFrame(backing, n, zeroPage, phys)
        && (backing.Fresh? ==> Unnamed(old(g).leaves, old(g).pins, phys))
        && g.leaves == old(g).leaves[SlotOf(pml4, w.idx) := RegionWord(flags, backing, phys)]
    {
      phys := 0;
      var ok, v := Descend(w);
      if !ok { return OutOfMemory, w, 0; }
      BackingKept(old(Now()), old(g), Now(), g, flags, backing, n);
      GrownTable(old(Now()), old(g), Now(), g, Space(pml4));
      label ready:
      ghost var k := SlotOf(pml4, w.idx);
      assert Up(k) == At(At(At(Space(pml4), w.idx.pml4), w.idx.pdpt), w.idx.pd);
      s, phys := MapPage(k, v.pt, w.idx.pt, flags, backing, n);
      if s == Done {
        GrownTransitive(old(Now()), old(g), old@ready(Now()), old@ready(g), Now(), g);
      }
      w' := v.(idx := Advance(w.idx),
               pdChanged := w.idx.pt + 1 >= 512,
               pdptChanged := w.idx.pt + 1 >= 512 && w.idx.pd + 1 >= 512,
               pml4Changed := w.idx.pt + 1 >= 512 && w.idx.pd + 1 >= 512 && w.idx.pdpt + 1 >= 512);
    }

    /**
     `alloc_region`, `alloc_mmio_region` and `alloc_zero_region`, which differ only in `backing`:
     a walk with carried indices and cached table pointers over the pages of the region.
     */
    method AllocRegion(vaddr: nat, size: nat, flags: Word, backing: Backing) returns (s: Status)
      requires Idle() && PagesUp(vaddr + size) <= USER_PAGES
      requires AllBacked(Now(), g, flags, backing, PagesUp(vaddr + size))
      modifies this`firstUsable, this`words, this`g, refs
      ensures s == AlreadyMapped ==> Overlaps(old(g).leaves, pml4, vaddr / PAGE_SIZE, PagesUp(vaddr + size))
      ensures s == OutOfMemory ==> Exhausted()
      ensures s == Done ==> && Idle() && Grown(old(Now()), old(g), Now(), g)
                            && vaddr / PAGE_SIZE <= PagesUp(vaddr + size)
                            && RegionMapped(old(g), g.leaves, pml4, vaddr / PAGE_SIZE,
                                            PagesUp(vaddr + size) - vaddr / PAGE_SIZE, flags, backing)
                            && RegionAs(old(g), g, pml4, vaddr / PAGE_SIZE, PagesUp(vaddr + size), flags, backing)
    {
      var w := Walk(GetPageEntry(vaddr), true, true, true, 0, 0, 0);
      var i, end := vaddr, PagesUp(vaddr + size) * PAGE_SIZE;
      var n: nat := 0;
      ghost var lo, hi := vaddr / PAGE_SIZE, PagesUp(vaddr + size);
      NextPage(i, hi);
      GrownReflexive(Now(), g);
      RegionNone(g, pml4, lo, flags, backing);
      while i < end
        invariant i / PAGE_SIZE == lo + n <= hi
        invariant i < end <==> lo + n < hi
        invariant i < end ==> w.idx == GetPageEntry(i)
        invariant Idle() && Cached(g, pml4, w) && Grown(old(Now()), old(g), Now(), g)
        invariant RegionMapped(old(g), g.leaves, pml4, lo, n, flags, backing)
        decreases end - i
      {
        label before:
        WalkNext(i, hi);
        AllBackedKept(old(Now()), old(g), Now(), g, flags, backing, hi, n);
        ghost var phys;
        s, w, phys := MapNext(w, flags, backing, n);
        if s != Done {
          if s == AlreadyMapped { RegionClash(old(g), old@before(g.leaves), pml4, lo, n, flags, backing, i, hi); }
          return;
        }
        GrownTransitive(old(Now()), old(g), old@before(Now()), old@before(g), Now(), g);
        GrownTable(old(Now()), old(g), old@before(Now()), old@before(g), Space(pml4));
        RegionStep(old(g), old@before(g.leaves), pml4, lo, n, flags, backing, i, phys);
        i := i + PAGE_SIZE;
        n := n + 1;
      }
      GrownTable(old(Now()), old(g), Now(), g, Space(pml4));
      RegionIsAs(old(g), g, pml4, lo, n, flags, backing);
      s := Done;
    }

    /** The four-level lookup shared by `get_physical_address`, `free_page` and `cow_handler`. */
    method FindTables(addr: nat) returns (r: Option<Tables>)
      requires Idle() && addr / PAGE_SIZE < USER_PAGES
      ensures r.Some? <==> SlotOf(pml4, GetPageEntry(addr)) in g.leaves
      ensures r.Some? ==> OnPath(g, pml4, GetPageEntry(addr), r.value)
    {
      var e := GetPageEntry(addr);
      EntryOfPage(addr);
      ghost var p3 := At(Space(pml4), e.pml4);
      ghost var p2 := At(p3, e.pdpt);
      ghost var p1 := At(p2, e.pd);
      ghost var k := At(p1, e.pt);
      assert k == SlotOf(pml4, e) && Up(k) == p1 && Up(p1) == p2 && Up(p2) == p3;
      if k in g.leaves { LeafFrame(Now(), g, k); }
      if p1 in g.at { ParentLink(Now(), g, p1); }
      if p2 in g.at { ParentLink(Now(), g, p2); }
      if p3 in g.at { ParentLink(Now(), g, p3); }
      TableFrame(Now(), g, Space(pml4));
      TableBelow(Now(), g, Space(pml4), e.pml4);
      var pml4e := words[Addr(pml4, e.pml4)];
      if !pml4e.present { return None; }
      TableBelow(Now(), g, p3, e.pdpt);
      var pdpte := words[Addr(pml4e.frame, e.pdpt)];
      if !pdpte.present { return None; }
      TableBelow(Now(), g, p2, e.pd);
      var pde := words[Addr(pdpte.frame, e.pd)];
      if !pde.present { return None; }
      LeafBelow(Now(), g, p1, e.pt);
      if !words[Addr(pde.frame, e.pt)].present { return None; }
      return Some(Tables(pml4e.frame, pdpte.frame, pde.frame));
    }

    /** `get_physical_address`: the frame a user page translates to, in the tables as in the flat map. */
    method GetPhysicalAddress(addr: nat) returns (r: Option<nat>)
      requires Idle() && addr / PAGE_SIZE < USER_PAGES
      ensures r == if SlotOf(pml4, GetPageEntry(addr)) in g.leaves
                   then Some(g.leaves[SlotOf(pml4, GetPageEntry(addr))].frame) else None
    {
      var t := FindTables(addr);
      if t.None? { return None; }
      LeafFrame(Now(), g, SlotOf(pml4, GetPageEntry(addr)));
      r := Some(words[Addr(t.value.pt, GetPageEntry(addr).pt)].frame);
    }

    /** The idiom that drops one reference everywhere in the file. */
    method Drop(f: nat)
      requires f < refs.Length && refs[f] > 0
      modifies this`firstUsable, refs
      ensures refs[..] == Decremented(old(refs[..]), f)
      ensures firstUsable == Lowered(refs[..], old(firstUsable), f)
    {
      if refs[f] > 0 { SetRef(f, refs[f] - 1); }
      if refs[f] == 0 && f < firstUsable { firstUsable := f; }
    }

    /** A present slot of a table stands for something. */
    lemma PresentSlot(k: Place, j: nat)
      requires Idle() && k in g.at && j < ENTRIES && (k.Space? ==> j < USER_ENTRIES)
      requires Addr(g.at[k].frame, j) in words && words[Addr(g.at[k].frame, j)].present
      ensures Inhabited(g, k)
    {
      assert Up(At(k, j)) == k;
      TableFrame(Now(), g, k);
      if g.at[k].level == 1 { LeafBelow(Now(), g, k, j); } else { TableBelow(Now(), g, k, j); }
    }

    /** Frees the table at `k` if none of its slots is present. */
    method Reap(ghost k: Place, table: nat, parent: nat, i: nat) returns (empty: bool)
      requires Idle() && k in g.at && k.At? && k.index == i && Up(k) in g.at
      requires g.at[k].frame == table && g.at[Up(k)].frame == parent
      modifies this`firstUsable, this`words, this`g, refs
      ensures Idle()
      ensures empty <==> forall j: nat :: j < ENTRIES ==> Absent(old(words), table, j)
      ensures empty ==> RemoveTable(old(g), k, g) && words == old(words)[Addr(parent, i) := ZERO_WORD]
      ensures !empty ==> Now() == old(Now()) && g == old(g) && Inhabited(g, k)
    {
      TableFrame(Now(), g, k);
      ParentLink(Now(), g, k);
      TableFrame(Now(), g, Up(k));
      empty := true;
      var j := 0;
      while j < ENTRIES
        invariant j <= ENTRIES && empty && forall l: nat :: l < j ==> Absent(words, table, l)
      {
        if words[Addr(table, j)].present {
          assert !Absent(words, table, j);
          PresentSlot(k, j);
          return false;
        }
        j := j + 1;
      }
      EmptyIsChildless(Now(), g, k);
      var f := words[Addr(parent, i)].frame;
      Drop(f);
      words := words[Addr(parent, i) := ZERO_WORD];
      ghost var g' := g.(at := g.at - {k}, owner := g.owner - {table}, held := g.held - {k}, torn := g.torn - {k});
      UnlinkStep(old(Now()), g, k, Now(), g');
      g := g';
    }

    /** Clears the leaf entry in slot `i` of the last-level table `pt` and drops its reference. */
    method ClearEntry(ghost k: Place, pt: nat, i: nat)
      requires Idle() && k in g.leaves && k.At? && k.index == i && Up(k) in g.at && g.at[Up(k)].frame == pt
      modifies this`firstUsable, this`words, this`g, refs
      ensures Idle() && g == old(g).(leaves := old(g).leaves - {k})
      ensures words == old(words)[Addr(pt, i) := ZERO_WORD]
    {
      LeafFrame(Now(), g, k);
      var phys := words[Addr(pt, i)].frame;
      words := words[Addr(pt, i) := ZERO_WORD];
      Drop(phys);
      ghost var g' := g.(leaves := g.leaves - {k});
      ClearLeafStep(old(Now()), g, k, Now(), g');
      g := g';
    }

    /** Its three checks for empty tables, from the last level up. */
    method ReapPath(ghost m: Mem, ghost g0: Shape, e: Indices, t: Tables)
      requires Idle() && InBounds(e) && OnPath(g, pml4, e, t) && Pruned(m, g0, Now(), g, SlotOf(pml4, e))
      requires {t.pd, t.pdpt, pml4} <= g0.owner.Keys
      modifies this`firstUsable, this`words, this`g, refs
      ensures Idle() && Pruned(m, g0, Now(), g, SlotOf(pml4, e)) && PathUsed(g, pml4, e)
    {
      ghost var p3 := At(Space(pml4), e.pml4);
      ghost var p2 := At(p3, e.pdpt);
      ghost var p1 := At(p2, e.pd);
      ghost var k := SlotOf(pml4, e);
      assert Up(k) == p1 && Up(p1) == p2 && Up(p2) == p3 && Up(p3) == Space(pml4);
      SlotUnder(pml4, e);
      TableFrame(Now(), g, Space(pml4));
      ReapNext(m, g0, k, p1, t.pt, t.pd, e.pd);
      ghost var g1 := g;
      ReapNext(m, g0, k, p2, t.pd, t.pdpt, e.pdpt);
      StillUsed(g1, p2, g, p1);
      ghost var g2 := g;
      ReapNext(m, g0, k, p3, t.pdpt, pml4, e.pml4);
      StillUsed(g2, p3, g, p2);
      StillUsed(g2, p3, g, p1);
    }

    method ReapNext(ghost m: Mem, ghost g0: Shape, ghost k: Place, ghost q: Place, table: nat, parent: nat, i: nat)
      requires Idle() && Pruned(m, g0, Now(), g, k) && q in g.at && q.At? && q.index == i && Up(q) in g.at && Under(k, q)
      requires g.at[q].frame == table && g.at[Up(q)].frame == parent && parent in g0.owner
      modifies this`firstUsable, this`words, this`g, refs
      ensures Idle() && Pruned(m, g0, Now(), g, k) && Used(g, q)
      ensures g == old(g) || RemoveTable(old(g), q, g)
    {
      ghost var m1, g1 := Now(), g;
      TableFrame(Now(), g, Up(q));
      ParentLink(Now(), g, q);
      var empty := Reap(q, table, parent, i);
      if empty { PrunedReap(m, g0, m1, g1, Now(), g, k, q, parent, i); }
    }

    /** `free_page`: unmaps one page and frees the tables that become empty. */
    method FreePage(addr: nat) returns (r: int)
      requires Idle() && addr / PAGE_SIZE < USER_PAGES
      modifies this`firstUsable, this`words, this`g, refs
      ensures Idle()
      ensures r == if addr == 0 || SlotOf(pml4, GetPageEntry(addr)) !in old(g).leaves then -1 else 0
      ensures r != 0 ==> Now() == old(Now()) && g == old(g)
      ensures r == 0 ==> Pruned(old(Now()), old(g), Now(), g, SlotOf(pml4, GetPageEntry(addr)))
      ensures r == 0 ==> PathUsed(g, pml4, GetPageEntry(addr))
    {
      if addr == 0 { return -1; }
      var found := FindTables(addr);
      if found.None? { return -1; }
      var e, t := GetPageEntry(addr), found.value;
      EntryOfPage(addr);
      ghost var p3 := At(Space(pml4), e.pml4);
      ghost var p2 := At(p3, e.pdpt);
      ghost var p1 := At(p2, e.pd);
      ghost var k := SlotOf(pml4, e);
      assert Up(k) == p1 && Up(p1) == p2 && Up(p2) == p3 && Up(p3) == Space(pml4);
      SlotUnder(pml4, e);
      TableFrame(Now(), g, p1);
      TableFrame(Now(), g, p2);
      TableFrame(Now(), g, p3);
      TableFrame(Now(), g, Space(pml4));
      ClearEntry(k, t.pt, e.pt);
      PrunedClear(old(Now()), old(g), Now(), g, k, t.pt, e.pt);
      ReapPath(old(Now()), old(g), e, t);
      r := 0;
    }
  }
}
