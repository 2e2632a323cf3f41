/** Addresses of page-table slots as paths from an address-space root. */
module Places {

  const ENTRIES: nat := 512
  const USER_ENTRIES: nat := 256
  const PAGE_SIZE: nat := 4096
  const USER_PAGES: nat := 256 * 512 * 512 * 512

  /** `Space(r)` is the top-level table in frame `r`; `At(t, i)` is what slot `i` of table `t` names. */
  datatype Place = Space(root: nat) | At(up: Place, index: nat)

  function Depth(k: Place): nat {
    if k.Space? then 0 else 1 + Depth(k.up)
  }

  /** The table that holds the slot. A named projection, so that quantifiers can be triggered by it. */
  function Up(k: Place): Place
    requires k.At?
  {
    k.up
  }

  function RootOf(k: Place): nat {
    if k.Space? then k.root else RootOf(k.up)
  }

  /** Number of slots of a table that belong to the user half. */
  function Limit(k: Place): (n: nat)
    ensures n <= ENTRIES
  {
    if k.Space? then USER_ENTRIES else ENTRIES
  }

  predicate InUserHalf(k: Place) {
    k.At? ==> k.index < Limit(k.up) && InUserHalf(k.up)
  }

  predicate Under(k: Place, t: Place) {
    k == t || (k.At? && Under(k.up, t))
  }

  /** `k` lies under one of the first `n` slots of table `t`. */
  predicate Below(k: Place, t: Place, n: nat) {
    k.At? && ((k.up == t && k.index < n) || Below(k.up, t, n))
  }

  function Rebase(k: Place, d: nat): Place {
    if k.Space? then Space(d) else At(Rebase(k.up, d), k.index)
  }

  /** The number of the page (at depth 4) or of the table span that a place covers. */
  function PageOf(k: Place): nat {
    if k.Space? then 0 else PageOf(k.up) * ENTRIES + k.index
  }

  lemma BelowStep(k: Place, t: Place, n: nat)
    ensures Below(k, t, n + 1) <==> Below(k, t, n) || Under(k, At(t, n))
  {
    if k.At? {
      BelowStep(k.up, t, n);
      if Under(k.up, At(t, n)) {
      }
    }
  }

  lemma UnderDepth(k: Place, t: Place)
    requires Under(k, t)
    ensures Depth(t) <= Depth(k)
    ensures Depth(k) == Depth(t) ==> k == t
    ensures RootOf(k) == RootOf(t)
  {
  }

  lemma BelowUnder(k: Place, t: Place, n: nat)
    requires Below(k, t, n)
    ensures Under(k, t) && k != t && Depth(t) < Depth(k) && RootOf(k) == RootOf(t)
  {
    if k.up == t {
    } else {
      BelowUnder(k.up, t, n);
    }
  }

  lemma UnderBelow(k: Place, t: Place)
    requires InUserHalf(k) && Under(k, t) && k != t
    ensures Below(k, t, Limit(t))
  {
    if k.up != t {
      UnderBelow(k.up, t);
    }
  }

  /** A place lies under one slot only. */
  lemma BelowNotUnder(k: Place, t: Place, n: nat, j: nat)
    requires Below(k, t, n) && Under(k, At(t, j))
    ensures j < n
  {
    if k.up == t && k.index < n {
      if k != At(t, j) { UnderDepth(t, At(t, j)); }
    } else if k != At(t, j) {
      BelowNotUnder(k.up, t, n, j);
    } else {
      BelowUnder(t, t, n);
    }
  }

  lemma UnderTransitive(k: Place, m: Place, t: Place)
    requires Under(k, m) && Under(m, t)
    ensures Under(k, t)
  {
  }

  lemma RebaseFacts(k: Place, d: nat)
    ensures Depth(Rebase(k, d)) == Depth(k)
    ensures RootOf(Rebase(k, d)) == d
    ensures Rebase(Rebase(k, d), RootOf(k)) == k
    ensures InUserHalf(Rebase(k, d)) <==> InUserHalf(k)
    ensures PageOf(Rebase(k, d)) == PageOf(k)
    ensures k.At? ==> Rebase(k, d).At? && Rebase(k, d).up == Rebase(k.up, d) && Rebase(k, d).index == k.index
  {
  }

  lemma RebaseUnder(k: Place, t: Place, d: nat, n: nat)
    requires RootOf(k) == RootOf(t)
    ensures Under(Rebase(k, d), Rebase(t, d)) <==> Under(k, t)
    ensures Below(Rebase(k, d), Rebase(t, d), n) <==> Below(k, t, n)
  {
    RebaseFacts(k, d);
    RebaseFacts(t, d);
    if k.At? {
      RebaseFacts(k.up, d);
      RebaseUnder(k.up, t, d, n);
    }
  }

  /** Two user places at equal depth in one space with equal page numbers are the same place. */
  lemma {:induction false} PageOfInjective(k: Place, q: Place)
    requires InUserHalf(k) && InUserHalf(q)
    requires Depth(k) == Depth(q) && RootOf(k) == RootOf(q) && PageOf(k) == PageOf(q)
    ensures k == q
  {
    if k.At? {
      assert k.index < ENTRIES && q.index < ENTRIES;
      assert PageOf(k.up) == PageOf(q.up) && k.index == q.index;
      PageOfInjective(k.up, q.up);
    }
  }

  /** `k` is the leaf slot of one of the user pages `lo .. hi` of the space `root`. */
  predicate InRegion(k: Place, root: nat, lo: nat, hi: nat) {
    Depth(k) == 4 && InUserHalf(k) && RootOf(k) == root && lo <= PageOf(k) < hi
  }

  /** The four table indices of `get_page_entry`. */
  datatype Indices = Indices(pml4: nat, pdpt: nat, pd: nat, pt: nat)

  function GetPageEntry(addr: nat): (e: Indices)
    ensures e.pml4 < ENTRIES && e.pdpt < ENTRIES && e.pd < ENTRIES && e.pt < ENTRIES
  {
    Indices(addr / 0x80_0000_0000 % 512, addr / 0x4000_0000 % 512, addr / 0x20_0000 % 512, addr / 0x1000 % 512)
  }

  function SlotOf(root: nat, e: Indices): Place {
    At(At(At(At(Space(root), e.pml4), e.pdpt), e.pd), e.pt)
  }

  lemma SlotUnder(root: nat, e: Indices)
    ensures var k := SlotOf(root, e); Under(k, k.up) && Under(k, k.up.up) && Under(k, k.up.up.up) && Under(k, Space(root))
  {
    var k := SlotOf(root, e);
    assert Under(k.up.up, k.up.up.up) && Under(k.up.up.up, Space(root));
    assert Under(k.up.up, Space(root)) && Under(k.up, k.up.up.up);
  }

  /** The carry chain at the end of every mapping-loop iteration. */
  function Advance(e: Indices): Indices {
    if e.pt + 1 < 512 then e.(pt := e.pt + 1)
    else if e.pd + 1 < 512 then e.(pt := 0, pd := e.pd + 1)
    else if e.pdpt + 1 < 512 then e.(pt := 0, pd := 0, pdpt := e.pdpt + 1)
    else Indices(e.pml4 + 1, 0, 0, 0)
  }

  lemma EntryOfPage(addr: nat)
    requires addr / PAGE_SIZE < USER_PAGES
    ensures var e := GetPageEntry(addr);
            e.pml4 < USER_ENTRIES
            && addr / PAGE_SIZE == ((e.pml4 * 512 + e.pdpt) * 512 + e.pd) * 512 + e.pt
  {
    var p := addr / 0x1000;
    assert addr / 0x20_0000 == p / 512;
    assert addr / 0x4000_0000 == p / 512 / 512;
    assert addr / 0x80_0000_0000 == p / 512 / 512 / 512;
  }

  lemma SlotFacts(root: nat, addr: nat)
    requires addr / PAGE_SIZE < USER_PAGES
    ensures var k := SlotOf(root, GetPageEntry(addr));
            Depth(k) == 4 && InUserHalf(k) && RootOf(k) == root && PageOf(k) == addr / PAGE_SIZE
  {
    EntryOfPage(addr);
    var e := GetPageEntry(addr);
    var k := SlotOf(root, e);
    assert InUserHalf(Space(root));
    assert InUserHalf(k.up.up.up);
    assert InUserHalf(k.up.up);
    assert InUserHalf(k.up);
    assert PageOf(k.up.up.up) == e.pml4;
    assert PageOf(k.up.up) == e.pml4 * 512 + e.pdpt;
    assert Depth(k.up.up.up) == 1;
    assert Depth(k.up.up) == 2;
    assert RootOf(k.up.up.up) == root;
    assert RootOf(k.up.up) == root;
  }

  /** The carried index visits the entry that `get_page_entry` computes for the next page. */
  lemma AdvanceIsNextPage(addr: nat)
    requires addr / PAGE_SIZE + 1 < USER_PAGES
    ensures Advance(GetPageEntry(addr)) == GetPageEntry(addr + PAGE_SIZE)
  {
    EntryOfPage(addr);
    EntryOfPage(addr + PAGE_SIZE);
    var e, n := GetPageEntry(addr), GetPageEntry(addr + PAGE_SIZE);
    assert (addr + PAGE_SIZE) / PAGE_SIZE == addr / PAGE_SIZE + 1;
    RadixUnique(Advance(e), n);
  }

  lemma RadixUnique(a: Indices, b: Indices)
    requires a.pdpt < 512 && a.pd < 512 && a.pt < 512 && b.pdpt < 512 && b.pd < 512 && b.pt < 512
    requires ((a.pml4 * 512 + a.pdpt) * 512 + a.pd) * 512 + a.pt == ((b.pml4 * 512 + b.pdpt) * 512 + b.pd) * 512 + b.pt
    ensures a == b
  {
    Digit((a.pml4 * 512 + a.pdpt) * 512 + a.pd, (b.pml4 * 512 + b.pdpt) * 512 + b.pd, a.pt, b.pt);
    Digit(a.pml4 * 512 + a.pdpt, b.pml4 * 512 + b.pdpt, a.pd, b.pd);
    Digit(a.pml4, b.pml4, a.pdpt, b.pdpt);
  }

  lemma Digit(x: int, y: int, a: int, b: int)
    requires 0 <= a < 512 && 0 <= b < 512 && x * 512 + a == y * 512 + b
    ensures x == y && a == b
  {
  }
}
