/**
 What user programs see: every page of every address space with its contents and whether it
 may be written. The operations that share frames are specified on this view, where sharing
 does not show.
 */
module AddressSpaces {
  import opened Common
  import opened Places
  import opened PageTables
  import opened PageMachine

  datatype Page = Page(data: seq<Word>, writable: bool, user: bool, other: nat)

  /** One private page per leaf slot; the frames behind the pages are not visible. */
  type View = map<Place, Page>

  ghost function Contents(words: Words, f: nat): (s: seq<Word>)
    ensures |s| == ENTRIES
  {
    seq(ENTRIES, i => if i >= 0 && Addr(f, i) in words then words[Addr(f, i)] else ZERO_WORD)
  }

  ghost function PageAt(words: Words, w: Word): Page {
    Page(Contents(words, w.frame), w.rw || w.cow, w.user, w.other)
  }

  ghost function ViewOf(words: Words, leaves: map<Place, Word>): View {
    map k | k in leaves :: PageAt(words, leaves[k])
  }

  lemma SameContents(words: Words, f: nat, words': Words, f': nat)
    requires forall i: nat :: i < ENTRIES ==> Addr(f, i) in words && Addr(f', i) in words' && words'[Addr(f', i)] == words[Addr(f, i)]
    ensures Contents(words', f') == Contents(words, f)
  {
  }

  /** Data frames keep their words, so the pages that keep their frames keep their contents. */
  lemma LeafContents(m: Mem, g: Shape, k: Place, words': Words)
    requires Inv(m, g) && k in g.leaves
    requires words'.Keys == m.words.Keys && forall a :: a in m.words && a.frame == g.leaves[k].frame ==> words'[a] == m.words[a]
    ensures Contents(words', g.leaves[k].frame) == Contents(m.words, g.leaves[k].frame)
  {
    LeafFrame(m, g, k);
    SameContents(m.words, g.leaves[k].frame, words', g.leaves[k].frame);
  }

  // ---------------------------------------------------------------- copy on write

  function CopyFrame(words: Words, from: nat, to: nat): Words {
    map a | a in words :: if a.frame == to && Addr(from, a.index) in words then words[Addr(from, a.index)] else words[a]
  }

  lemma CopyOntoItself(words: Words, f: nat)
    ensures CopyFrame(words, f, f) == words
  {
    assert forall a :: a in words && a.frame == f ==> Addr(f, a.index) == a;
  }

  /** The leaf entry that `cow_handler` leaves behind. */
  function Unshared(w: Word, frame: nat): Word {
    w.(frame := frame, rw := true, cow := false)
  }

  /** Giving the page at `k` the frame `w.frame`, whose contents are the page's, changes no page. */
  lemma CowView(m: Mem, g: Shape, k: Place, w: Word, words': Words)
    requires Inv(m, g) && k in g.leaves && k.At? && Up(k) in g.at && g.leaves[k].cow && w == Unshared(g.leaves[k], w.frame)
    requires w.frame == g.leaves[k].frame || (w.frame < |m.refs| && m.refs[w.frame] == 0)
    requires words' == CopyFrame(m.words, g.leaves[k].frame, w.frame)[Addr(g.at[Up(k)].frame, k.index) := w]
    ensures ViewOf(words', g.leaves[k := w]) == ViewOf(m.words, g.leaves)
  {
    var f, t := g.leaves[k].frame, g.at[Up(k)].frame;
    LeafFrame(m, g, k);
    TableFrame(m, g, Up(k));
    if w.frame != f { FreeFrame(m, g, w.frame); }
    assert words'.Keys == m.words.Keys;
    SameContents(m.words, f, words', w.frame);
    forall q | q in g.leaves && q != k ensures PageAt(words', g.leaves[q]) == PageAt(m.words, g.leaves[q]) {
      LeafFrame(m, g, q);
      LeafContents(m, g, q, words');
    }
  }

  /** The copying branch: the page moves to a free frame that holds a copy. */
  method CopyPage(mach: Machine, ghost k: Place, pt: nat, i: nat, pte: Word) returns (new_: Option<nat>)
    requires mach.Idle() && k in mach.g.leaves && k.At? && k.index == i && Up(k) in mach.g.at && mach.g.at[Up(k)].frame == pt
    requires mach.g.leaves[k] == pte && pte.cow && pte.frame < mach.refs.Length && mach.refs[pte.frame] > 1
    modifies mach`firstUsable, mach`words, mach`g, mach.refs
    ensures new_.Some? ==> && mach.Idle()
                           && mach.g == old(mach.g).(leaves := old(mach.g).leaves[k := Unshared(pte, new_.value)])
                           && ViewOf(mach.words, mach.g.leaves) == ViewOf(old(mach.words), old(mach.g.leaves))
    ensures new_.None? ==> mach.Exhausted()
  {
    Basics(mach.Now(), mach.g);
    ghost var m := mach.Now();
    new_ := mach.GetAvailableAddress();
    if new_.None? {
      mach.NothingFree();
    } else {
      MovePage(mach, m, k, pt, i, pte, new_.value);
    }
  }

  /** The shared page at k, and the first free frame of memory m. */
  ghost predicate Movable(m: Mem, g: Shape, k: Place, pte: Word, f: nat) {
    && k in g.leaves && k.At? && Up(k) in g.at && g.leaves[k] == pte && pte.frame < |m.refs| && m.refs[pte.frame] > 1 && f < |m.refs|
    && forall z {:trigger Spread(z)} :: Spread(z) ==> MovableBody(m, g, k, pte, f)
  }

  ghost predicate MovableBody(m: Mem, g: Shape, k: Place, pte: Word, f: nat) {
    && Inv(m, g) && Settled(g) && pte.cow
    && m.first <= f < |m.refs| && m.refs[f] == 0 && forall j :: m.first <= j < f ==> m.refs[j] > 0
  }

  /** Copying the page to the frame that was found; `m` is the memory before the search. */
  method MovePage(mach: Machine, ghost m: Mem, ghost k: Place, pt: nat, i: nat, pte: Word, f: nat)
    requires m == mach.Now().(first := m.first) && mach.firstUsable == f + 1 && Movable(m, mach.g, k, pte, f)
    requires k.index == i && mach.g.at[Up(k)].frame == pt && Space(mach.pml4) in mach.g.at && mach.zeroPage == mach.g.zero
    modifies mach`words, mach`g, mach.refs
    ensures mach.Idle() && mach.g == old(mach.g).(leaves := old(mach.g).leaves[k := Unshared(pte, f)])
    ensures ViewOf(mach.words, mach.g.leaves) == ViewOf(old(mach.words), old(mach.g.leaves))
  {
    mach.SetRef(pte.frame, mach.refs[pte.frame] - 1);
    mach.SetRef(f, 1);
    mach.words := CopyFrame(mach.words, pte.frame, f)[Addr(pt, i) := Unshared(pte, f)];
    ghost var g' := mach.g.(leaves := mach.g.leaves[k := Unshared(pte, f)]);
    MovedPage(m, mach.g, k, pte, f, mach.Now(), g');
    mach.g := g';
  }

  lemma MovedPage(m: Mem, g: Shape, k: Place, pte: Word, f: nat, m': Mem, g': Shape)
    requires Movable(m, g, k, pte, f)
    requires m' == Mem(CopyFrame(m.words, pte.frame, f)[Addr(g.at[Up(k)].frame, k.index) := Unshared(pte, f)],
                       m.refs[pte.frame := m.refs[pte.frame] - 1][f := 1], f + 1)
    requires g' == g.(leaves := g.leaves[k := Unshared(pte, f)])
    ensures Inv(m', g') && Settled(g') && ViewOf(m'.words, g'.leaves) == ViewOf(m.words, g.leaves)
  {
    assert Spread(0);
    var copied := m.(words := CopyFrame(m.words, pte.frame, f));
    LeafFrame(m, g, k);
    FreeFrame(m, g, f);
    DataInv(m, g, f, copied.words);
    CowView(m, g, k, Unshared(pte, f), m'.words);
    MoveLeafStep(copied, g, k, Unshared(pte, f), m', g');
  }

  /** The other branch: the page already is the frame's sole reference. */
  method ReclaimPage(mach: Machine, ghost k: Place, pt: nat, i: nat, pte: Word)
    requires mach.Idle() && k in mach.g.leaves && k.At? && k.index == i && Up(k) in mach.g.at && mach.g.at[Up(k)].frame == pt
    requires mach.g.leaves[k] == pte && pte.cow && pte.frame < mach.refs.Length && mach.refs[pte.frame] <= 1
    modifies mach`words, mach`g
    ensures mach.Idle() && mach.g == old(mach.g).(leaves := old(mach.g).leaves[k := Unshared(pte, pte.frame)])
    ensures ViewOf(mach.words, mach.g.leaves) == ViewOf(old(mach.words), old(mach.g.leaves))
  {
    LeafFrame(mach.Now(), mach.g, k);
    var w := Unshared(pte, pte.frame);
    CopyOntoItself(mach.words, pte.frame);
    mach.words := mach.words[Addr(pt, i) := w];
    CowView(old(mach.Now()), mach.g, k, w, mach.words);
    ghost var g' := mach.g.(leaves := mach.g.leaves[k := w]);
    ReflagStep(old(mach.Now()), mach.g, k, w, mach.Now(), g');
    mach.g := g';
  }

  /** The page is copy-on-write, and its frame has more than one name. */
  ghost predicate SharedAt(mach: Machine, k: Place)
    reads mach, mach.refs
  {
    k in mach.g.leaves && mach.g.leaves[k].cow && mach.g.leaves[k].frame < mach.refs.Length && mach.refs[mach.g.leaves[k].frame] > 1
  }

  /**
   `cow_handler`: a write fault on a copy-on-write page gives the page a frame of its own and
   makes it writable; no page of any space changes. `None` is the out-of-memory panic.
   */
  method CowHandler(mach: Machine, addr: nat) returns (r: Option<bool>)
    requires mach.Idle() && addr / PAGE_SIZE < USER_PAGES
    modifies mach`firstUsable, mach`words, mach`g, mach.refs
    ensures r.Some? ==>
      var k := SlotOf(mach.pml4, GetPageEntry(addr));
      && mach.Idle()
      && r.value == (k in old(mach.g).leaves && old(mach.g).leaves[k].cow)
      && (!r.value ==> mach.Now() == old(mach.Now()) && mach.g == old(mach.g))
      && (r.value ==> && k in mach.g.leaves
                      && mach.g.leaves[k] == Unshared(old(mach.g).leaves[k], mach.g.leaves[k].frame)
                      && mach.g == old(mach.g).(leaves := old(mach.g).leaves[k := mach.g.leaves[k]]))
      && ViewOf(mach.words, mach.g.leaves) == ViewOf(old(mach.words), old(mach.g.leaves))
    ensures r.None? ==> mach.Exhausted() && old(SharedAt(mach, SlotOf(mach.pml4, GetPageEntry(addr))))
  {
    var found := mach.FindTables(addr);
    if found.None? { return Some(false); }
    var pt, e := found.value.pt, GetPageEntry(addr);
    ghost var k := SlotOf(mach.pml4, e);
    LeafFrame(mach.Now(), mach.g, k);
    assert Up(k) == At(At(At(Space(mach.pml4), e.pml4), e.pdpt), e.pd);
    var pte := mach.words[Addr(pt, e.pt)];
    if !pte.cow { return Some(false); }
    if mach.refs[pte.frame] > 1 {
      var new_ := CopyPage(mach, k, pt, e.pt, pte);
      if new_.None? { return None; }
    } else {
      ReclaimPage(mach, k, pt, e.pt, pte);
    }
    r := Some(true);
  }

  // ---------------------------------------------------------------- user stores

  /** A store through a writable entry reaches this page and no other. */
  lemma StoreView(m: Mem, g: Shape, k: Place, i: nat, v: Word, words': Words)
    requires Inv(m, g) && k in g.leaves && g.leaves[k].rw && i < ENTRIES
    requires words' == m.words[Addr(g.leaves[k].frame, i) := v]
    ensures var before := ViewOf(m.words, g.leaves);
            ViewOf(words', g.leaves) == before[k := before[k].(data := before[k].data[i := v])]
  {
    var f := g.leaves[k].frame;
    LeafFrame(m, g, k);
    Open(m, g);
    SoleReference(m.refs, m.first, g, k);
    forall q | q in g.leaves && q != k ensures PageAt(words', g.leaves[q]) == PageAt(m.words, g.leaves[q]) {
      LeafContents(m, g, q, words');
    }
    assert Contents(words', f) == Contents(m.words, f)[i := v];
    OnePage(m.words, words', g.leaves, k, i, v);
  }

  lemma OnePage(words: Words, words': Words, leaves: map<Place, Word>, k: Place, i: nat, v: Word)
    requires k in leaves && i < ENTRIES && Contents(words', leaves[k].frame) == Contents(words, leaves[k].frame)[i := v]
    requires forall q :: q in leaves && q != k ==> PageAt(words', leaves[q]) == PageAt(words, leaves[q])
    ensures var before := ViewOf(words, leaves);
            ViewOf(words', leaves) == before[k := before[k].(data := before[k].data[i := v])]
  {
  }

  /** One attempt of the processor to store a user word: it needs write and user permission at every level. */
  method Store(mach: Machine, addr: nat, i: nat, v: Word) returns (stored: bool)
    requires mach.Idle() && addr / PAGE_SIZE < USER_PAGES && i < ENTRIES
    modifies mach`words
    ensures mach.Idle()
    ensures var k := SlotOf(mach.pml4, GetPageEntry(addr));
            stored == (k in mach.g.leaves && mach.g.leaves[k].rw && mach.g.leaves[k].user)
    ensures !stored ==> mach.words == old(mach.words)
    ensures stored ==> var k := SlotOf(mach.pml4, GetPageEntry(addr));
                       var before := ViewOf(old(mach.words), mach.g.leaves);
                       ViewOf(mach.words, mach.g.leaves) == before[k := before[k].(data := before[k].data[i := v])]
  {
    var found := mach.FindTables(addr);
    if found.None? { return false; }
    var pt, e := found.value.pt, GetPageEntry(addr);
    ghost var k := SlotOf(mach.pml4, e);
    ghost var m := mach.Now();
    LeafFrame(m, mach.g, k);
    assert Up(k) == At(At(At(Space(mach.pml4), e.pml4), e.pdpt), e.pd);
    ghost var p3, p2 := At(Space(mach.pml4), e.pml4), At(At(Space(mach.pml4), e.pml4), e.pdpt);
    ParentLink(m, mach.g, p3);
    ParentLink(m, mach.g, p2);
    ParentLink(m, mach.g, At(p2, e.pd));
    assert Up(p3) == Space(mach.pml4) && Up(p2) == p3 && Up(At(p2, e.pd)) == p2;
    TableFrame(m, mach.g, Space(mach.pml4));
    var pml4e, pdpte := mach.words[Addr(mach.pml4, e.pml4)], mach.words[Addr(found.value.pdpt, e.pdpt)];
    var pde, pte := mach.words[Addr(found.value.pd, e.pd)], mach.words[Addr(pt, e.pt)];
    if !(pml4e.rw && pml4e.user && pdpte.rw && pdpte.user && pde.rw && pde.user) { return false; }
    if !(pte.rw && pte.user) { return false; }
    mach.words := mach.words[Addr(pte.frame, i) := v];
    StoreView(m, mach.g, k, i, v, mach.words);
    assert pte.frame != mach.g.zero by { if pte.frame == mach.g.zero { ZeroPageNeverWritable(m, mach.g, k); } }
    DataInv(m, mach.g, pte.frame, mach.words);
    stored := true;
  }
}
