/**
 Physical memory, the per-frame reference counts and the four-level page tables of
 kernel/memory/paging.c as values, the invariant that ties them to a flat map of leaf
 entries, and one lemma per elementary update saying that the invariant survives it.
 */
module PageTables {
  import opened Common
  import opened Places

  /** A 64-bit word of memory, split the way the MMU and the kernel split a table entry. */
  datatype Word = Word(frame: nat, present: bool, rw: bool, user: bool, cow: bool, other: nat)

  const ZERO_WORD := Word(0, false, false, false, false, 0)

  function LinkWord(f: nat): Word {
    Word(f, true, true, true, false, 0)
  }

  /** What `clone_page_tables` leaves in a present leaf entry. */
  function CowWord(w: Word): Word {
    if w.rw then w.(rw := false, cow := true) else w
  }

  /** A live table: the frame that holds it and its level (4 for a root, 1 for the last level). */
  datatype Table = Table(frame: nat, level: nat)

  /**
   What the raw memory stands for. `at` gives every live table, `leaves` the present leaf
   entries, `owner` the inverse of `at`; tables in `held` are named by kernel code (a task's cr3, or a table under
   construction) instead of a parent entry; tables in `torn` are being taken down.
   */
  datatype Shape = Shape(at: map<Place, Table>, owner: map<nat, Place>, leaves: map<Place, Word>, held: set<Place>,
                         torn: set<Place>, pins: multiset<nat>, zero: nat)

  /** A word address: frame number and word index within the frame. */
  datatype Addr = Addr(frame: nat, index: nat)

  type Words = map<Addr, Word>

  function ClearFrame(words: Words, f: nat): Words {
    map a | a in words :: if a.frame == f then ZERO_WORD else words[a]
  }

  /** Physical frames, `memory_bitmap` and `first_usable`. */
  datatype Mem = Mem(words: Words, refs: seq<nat>, first: nat)

  // ---------------------------------------------------------------- counting

  function TableFrames(at: map<Place, Table>): map<Place, nat> {
    map k | k in at :: at[k].frame
  }

  function LeafFrames(leaves: map<Place, Word>): map<Place, nat> {
    map k | k in leaves :: leaves[k].frame
  }

  function Names(m: map<Place, nat>, f: nat): set<Place> {
    set k | k in m && m[k] == f
  }

  function Refs(m: map<Place, nat>, f: nat): nat {
    |Names(m, f)|
  }

  lemma RefsInsert(m: map<Place, nat>, k: Place, v: nat, f: nat)
    requires k !in m
    ensures Refs(m[k := v], f) == Refs(m, f) + (if v == f then 1 else 0)
  {
    assert Names(m[k := v], f) == if v == f then Names(m, f) + {k} else Names(m, f);
  }

  lemma RefsRemove(m: map<Place, nat>, k: Place, f: nat)
    requires k in m
    ensures Refs(m, f) == Refs(m - {k}, f) + (if m[k] == f then 1 else 0)
  {
    assert m[k] == f ==> k in Names(m, f);
    assert Names(m - {k}, f) == Names(m, f) - {k};
  }

  lemma RefsUpdate(m: map<Place, nat>, k: Place, v: nat, f: nat)
    requires k in m
    ensures Refs(m[k := v], f) + (if m[k] == f then 1 else 0) == Refs(m, f) + (if v == f then 1 else 0)
  {
    RefsRemove(m, k, f);
    RefsInsert(m - {k}, k, v, f);
    assert (m - {k})[k := v] == m[k := v];
  }

  lemma RefsPositive(m: map<Place, nat>, k: Place)
    requires k in m
    ensures Refs(m, m[k]) >= 1
  {
    assert k in Names(m, m[k]);
  }

  lemma RefsUnique(m: map<Place, nat>, k: Place, q: Place)
    requires k in m && q in m && m[k] == m[q] && Refs(m, m[k]) <= 1
    ensures k == q
  {
    assert k in Names(m, m[k]) && q in Names(m, m[k]);
    assert |Names(m, m[k]) - {k}| == 0;
  }

  // ---------------------------------------------------------------- shape

  predicate IsLink(w: Word, f: nat) {
    w.present && w.rw && w.user && w.frame == f
  }

  /** Memory consists of `n` frames of 512 words. */
  ghost predicate Sized(words: Words, n: nat) {
    forall f: nat, i: nat :: Addr(f, i) in words <==> f < n && i < ENTRIES
  }

  ghost predicate Located(n: nat, g: Shape) {
    forall k :: k in g.at ==> g.at[k].frame < n && 1 <= g.at[k].level <= 4
                              && (k.Space? <==> g.at[k].level == 4)
                              && (k.Space? ==> k.root == g.at[k].frame && k in g.held)
  }

  ghost predicate Closed(g: Shape) {
    && (forall k {:trigger Up(k)} :: k in g.at && k.At? ==>
          Up(k) in g.at && g.at[Up(k)].level == g.at[k].level + 1 && k.index < Limit(Up(k)))
    && (forall k {:trigger Up(k)} :: k in g.leaves && k.At? ==>
          Up(k) in g.at && g.at[Up(k)].level == 1 && k.index < ENTRIES)
  }

  /** A frame holds at most one table, and no leaf entry names a table. */
  ghost predicate Apart(n: nat, g: Shape) {
    && (forall k :: k in g.at ==> g.at[k].frame in g.owner && g.owner[g.at[k].frame] == k)
    && (forall f :: f in g.owner ==> g.owner[f] in g.at && g.at[g.owner[f]].frame == f)
    && (forall k :: k in g.leaves ==> k.At? && g.leaves[k].present && g.leaves[k].frame < n && g.leaves[k].frame !in g.owner)
  }

  ghost predicate Shaped(n: nat, g: Shape) {
    Located(n, g) && Closed(g) && Apart(n, g) && g.held <= g.at.Keys && g.torn <= g.held
  }

  /** The word in slot `i` of the table at `k`. */
  function Slot(words: Words, at: map<Place, Table>, k: Place, i: nat): Word
    requires k in at && Addr(at[k].frame, i) in words
  {
    words[Addr(at[k].frame, i)]
  }

  /** Every table that is not held is named by its slot in its parent. */
  ghost predicate Linked(words: Words, n: nat, g: Shape)
    requires Sized(words, n) && Shaped(n, g)
  {
    forall k {:trigger Up(k)} :: k in g.at && k.At? && k !in g.held
                                ==> IsLink(Slot(words, g.at, Up(k), k.index), g.at[k].frame)
  }

  /** Every present slot of an upper-level table names a live table one level down. */
  ghost predicate Tabled(words: Words, n: nat, g: Shape)
    requires Sized(words, n) && Shaped(n, g)
  {
    forall k, i: nat :: k in g.at && k !in g.torn && g.at[k].level > 1 && i < Limit(k) && Slot(words, g.at, k, i).present
                        ==> At(k, i) in g.at && At(k, i) !in g.held
  }

  ghost predicate TablesOk(words: Words, n: nat, g: Shape)
    requires Sized(words, n) && Shaped(n, g)
  {
    Linked(words, n, g) && Tabled(words, n, g)
  }

  /** `leaves` records real entries of last-level tables ... */
  ghost predicate Leafed(words: Words, n: nat, g: Shape)
    requires Sized(words, n) && Shaped(n, g)
  {
    forall k {:trigger Up(k)} :: k in g.leaves ==> Slot(words, g.at, Up(k), k.index) == g.leaves[k]
  }

  /** ... and all the present ones. */
  ghost predicate LeafComplete(words: Words, n: nat, g: Shape)
    requires Sized(words, n) && Shaped(n, g)
  {
    forall k, i: nat :: k in g.at && k !in g.torn && g.at[k].level == 1 && i < ENTRIES && Slot(words, g.at, k, i).present
                        ==> At(k, i) in g.leaves
  }

  ghost predicate LeavesOk(words: Words, n: nat, g: Shape)
    requires Sized(words, n) && Shaped(n, g)
  {
    Leafed(words, n, g) && LeafComplete(words, n, g)
  }

  /** The words of memory are page tables of shape `g`. */
  ghost predicate Structure(words: Words, n: nat, g: Shape) {
    Sized(words, n) && Shaped(n, g) && TablesOk(words, n, g) && LeavesOk(words, n, g)
  }

  // ---------------------------------------------------------------- counts

  ghost predicate InRange(g: Shape, n: nat) {
    forall k :: k in g.leaves ==> g.leaves[k].frame < n
  }

  /** A frame's count is its pins plus the tables and leaf entries that name it. */
  ghost predicate Exact(refs: seq<nat>, g: Shape) {
    forall f: nat :: f < |refs| ==> refs[f] == g.pins[f] + Refs(TableFrames(g.at), f) + Refs(LeafFrames(g.leaves), f)
  }

  ghost predicate NoneFreeBelow(refs: seq<nat>, first: nat) {
    first <= |refs| && forall f :: 0 <= f < first ==> refs[f] > 0
  }

  /** A frame mapped writable has exactly one reference. */
  ghost predicate Private(refs: seq<nat>, g: Shape)
    requires InRange(g, |refs|)
  {
    forall k :: k in g.leaves && g.leaves[k].rw ==> refs[g.leaves[k].frame] == 1
  }

  ghost predicate Counted(refs: seq<nat>, first: nat, g: Shape) {
    InRange(g, |refs|) && Exact(refs, g) && NoneFreeBelow(refs, first) && Private(refs, g)
  }

  ghost predicate ZeroKept(words: Words, g: Shape) {
    g.zero in g.pins && g.zero !in g.owner
    && forall i: nat :: i < ENTRIES ==> Addr(g.zero, i) in words && words[Addr(g.zero, i)] == ZERO_WORD
  }

  ghost predicate Consistent(m: Mem, g: Shape) {
    Structure(m.words, |m.refs|, g) && Counted(m.refs, m.first, g) && ZeroKept(m.words, g)
  }

  /** The invariant. The quantifier keeps the solver from opening it except where `Gate` is mentioned. */
  ghost predicate Inv(m: Mem, g: Shape) {
    forall z {:trigger Gate(z)} :: Gate(z) ==> Consistent(m, g)
  }

  lemma Open(m: Mem, g: Shape)
    requires Inv(m, g)
    ensures Consistent(m, g)
  {
    assert Gate(0);
  }

  /** Between kernel operations nothing but the roots is held and nothing is half freed. */
  ghost predicate Settled(g: Shape) {
    g.torn == {} && forall k :: k in g.held ==> k.Space?
  }

  // ---------------------------------------------------------------- consequences

  lemma LeafReferenced(refs: seq<nat>, first: nat, g: Shape, k: Place)
    requires Counted(refs, first, g) && k in g.leaves
    ensures refs[g.leaves[k].frame] >= 1
  {
    RefsPositive(LeafFrames(g.leaves), k);
  }

  lemma TableReferenced(refs: seq<nat>, first: nat, g: Shape, k: Place)
    requires Counted(refs, first, g) && k in g.at && g.at[k].frame < |refs|
    ensures refs[g.at[k].frame] >= 1
  {
    RefsPositive(TableFrames(g.at), k);
  }

  /** A frame with count zero is named by nothing. */
  lemma FreeFrameUnnamed(refs: seq<nat>, first: nat, g: Shape, f: nat)
    requires Counted(refs, first, g) && f < |refs| && refs[f] == 0
    ensures f >= first && f !in g.pins
    ensures forall k :: k in g.at ==> g.at[k].frame != f
    ensures forall k :: k in g.leaves ==> g.leaves[k].frame != f
  {
    forall k | k in g.at ensures g.at[k].frame != f {
      if g.at[k].frame == f { TableReferenced(refs, first, g, k); }
    }
    forall k | k in g.leaves ensures g.leaves[k].frame != f { LeafReferenced(refs, first, g, k); }
  }

  /** A leaf that is a frame's sole reference: no pin and no other leaf names the frame. */
  lemma SoleReference(refs: seq<nat>, first: nat, g: Shape, k: Place)
    requires Counted(refs, first, g) && k in g.leaves && refs[g.leaves[k].frame] == 1
    ensures g.leaves[k].frame !in g.pins
    ensures forall q :: q in g.leaves && g.leaves[q].frame == g.leaves[k].frame ==> q == k
  {
    var f := g.leaves[k].frame;
    RefsPositive(LeafFrames(g.leaves), k);
    forall q | q in g.leaves && g.leaves[q].frame == f ensures q == k {
      RefsUnique(LeafFrames(g.leaves), k, q);
    }
  }

  /** The shared zero page is never mapped writable. */
  lemma ZeroPageNeverWritable(m: Mem, g: Shape, k: Place)
    requires Inv(m, g) && k in g.leaves && g.leaves[k].frame == g.zero
    ensures !g.leaves[k].rw
  {
    Open(m, g);
    if g.leaves[k].rw {
      SoleReference(m.refs, m.first, g, k);
    }
  }

  // ---------------------------------------------------------------- elementary updates: structure

  /** An unnamed frame becomes the table at `k`, held by the kernel. */
  ghost predicate AddTable(n: nat, g: Shape, f: nat, k: Place, l: nat, g': Shape) {
    && f < n && f !in g.owner && k !in g.at && 1 <= l <= 4
    && (forall q :: q in g.leaves ==> g.leaves[q].frame != f)
    && (k.Space? ==> k.root == f && l == 4)
    && (k.At? ==> l < 4 && Up(k) in g.at && k.index < Limit(Up(k)) && g.at[Up(k)].level == l + 1)
    && g' == g.(at := g.at[k := Table(f, l)], owner := g.owner[f := k], held := g.held + {k})
  }

  lemma AddTableShape(n: nat, g: Shape, f: nat, k: Place, l: nat, g': Shape)
    requires Shaped(n, g) && AddTable(n, g, f, k, l, g')
    ensures Shaped(n, g')
  {
    AddTableClosed(n, g, f, k, l, g');
    AddTableApart(n, g, f, k, l, g');
  }

  lemma AddTableClosed(n: nat, g: Shape, f: nat, k: Place, l: nat, g': Shape)
    requires Shaped(n, g) && AddTable(n, g, f, k, l, g')
    ensures Closed(g')
  {
    forall q {:trigger Up(q)} | q in g'.at && q.At?
      ensures Up(q) in g'.at && g'.at[Up(q)].level == g'.at[q].level + 1 && q.index < Limit(Up(q))
    {
      if q != k {
        assert q in g.at;
        assert Up(q) in g.at && Up(q) != k;
      }
    }
    forall q {:trigger Up(q)} | q in g'.leaves && q.At?
      ensures Up(q) in g'.at && g'.at[Up(q)].level == 1 && q.index < ENTRIES
    {
      assert Up(q) in g.at && Up(q) != k;
    }
  }

  lemma AddTableApart(n: nat, g: Shape, f: nat, k: Place, l: nat, g': Shape)
    requires Shaped(n, g) && AddTable(n, g, f, k, l, g')
    ensures Apart(n, g')
  {
    forall q | q in g'.at ensures g'.at[q].frame in g'.owner && g'.owner[g'.at[q].frame] == q {
      if q != k { assert q in g.at && g.at[q].frame in g.owner; }
    }
  }

  lemma AddTableLinked(words: Words, n: nat, g: Shape, f: nat, k: Place, l: nat, words': Words, g': Shape)
    requires Sized(words, n) && Shaped(n, g) && Linked(words, n, g) && AddTable(n, g, f, k, l, g')
    requires words' == ClearFrame(words, f) && Shaped(n, g')
    ensures Sized(words', n) && Linked(words', n, g')
  {
    assert Sized(words', n);
    forall q {:trigger Up(q)} | q in g'.at && q.At? && q !in g'.held
      ensures IsLink(Slot(words', g'.at, Up(q), q.index), g'.at[q].frame)
    {
      assert q in g.at && Up(q) in g.at && Up(q) != k;
    }
  }

  lemma AddTableTabled(words: Words, n: nat, g: Shape, f: nat, k: Place, l: nat, words': Words, g': Shape)
    requires Sized(words, n) && Shaped(n, g) && Tabled(words, n, g) && AddTable(n, g, f, k, l, g')
    requires k.At? ==> !Slot(words, g.at, Up(k), k.index).present
    requires words' == ClearFrame(words, f) && Sized(words', n) && Shaped(n, g')
    ensures Tabled(words', n, g')
  {
    forall q, i: nat | q in g'.at && q !in g'.torn && g'.at[q].level > 1 && i < Limit(q) && Slot(words', g'.at, q, i).present
      ensures At(q, i) in g'.at && At(q, i) !in g'.held
    {
      assert q in g.at && g.at[q].frame != f;
      assert Slot(words', g'.at, q, i) == Slot(words, g.at, q, i);
    }
  }

  lemma AddTableLeaves(words: Words, n: nat, g: Shape, f: nat, k: Place, l: nat, words': Words, g': Shape)
    requires Sized(words, n) && Shaped(n, g) && LeavesOk(words, n, g) && AddTable(n, g, f, k, l, g')
    requires words' == ClearFrame(words, f) && Sized(words', n) && Shaped(n, g')
    ensures LeavesOk(words', n, g')
  {
    forall q, i: nat | q in g'.at && q !in g'.torn && g'.at[q].level == 1 && i < ENTRIES && Slot(words', g'.at, q, i).present
      ensures At(q, i) in g'.leaves
    {
      assert q in g.at && g.at[q].frame != f;
      assert Slot(words', g'.at, q, i) == Slot(words, g.at, q, i);
    }
    forall q {:trigger Up(q)} | q in g'.leaves ensures Slot(words', g'.at, Up(q), q.index) == g'.leaves[q] {
      assert Up(q) in g.at;
    }
  }

  /** A present word in a last-level slot: a new leaf entry or a new value of an old one. */
  ghost predicate SetLeaf(words: Words, n: nat, g: Shape, k: Place, w: Word, words': Words, g': Shape) {
    && k.At? && Up(k) in g.at && g.at[Up(k)].level == 1 && k.index < ENTRIES
    && w.present && w.frame < n && w.frame !in g.owner
    && words' == words[Addr(g.at[Up(k)].frame, k.index) := w]
    && g' == g.(leaves := g.leaves[k := w])
  }

  lemma SetLeafShape(words: Words, n: nat, g: Shape, k: Place, w: Word, words': Words, g': Shape)
    requires Sized(words, n) && Shaped(n, g) && SetLeaf(words, n, g, k, w, words', g')
    ensures Sized(words', n) && Shaped(n, g')
  {
    assert words'.Keys == words.Keys by { assert Addr(g.at[Up(k)].frame, k.index) in words; }
    forall q {:trigger Up(q)} | q in g'.at && q.At?
      ensures Up(q) in g'.at && g'.at[Up(q)].level == g'.at[q].level + 1 && q.index < Limit(Up(q))
    {
      assert q in g.at;
    }
    forall q {:trigger Up(q)} | q in g'.leaves && q.At? ensures Up(q) in g'.at && g'.at[Up(q)].level == 1 && q.index < ENTRIES {
      assert q == k || q in g.leaves;
    }
    assert Closed(g');
    assert Apart(n, g');
  }

  lemma SetLeafTables(words: Words, n: nat, g: Shape, k: Place, w: Word, words': Words, g': Shape)
    requires Sized(words, n) && Shaped(n, g) && TablesOk(words, n, g) && SetLeaf(words, n, g, k, w, words', g')
    requires Sized(words', n) && Shaped(n, g')
    ensures TablesOk(words', n, g')
  {
    UpperSlots(words, n, g, words', g');
  }

  lemma SetLeafLeaves(words: Words, n: nat, g: Shape, k: Place, w: Word, words': Words, g': Shape)
    requires Sized(words, n) && Shaped(n, g) && LeavesOk(words, n, g) && SetLeaf(words, n, g, k, w, words', g')
    requires Sized(words', n) && Shaped(n, g')
    ensures LeavesOk(words', n, g')
  {
    forall q, i: nat | q in g.at && i < ENTRIES && At(q, i) != k ensures Slot(words', g.at, q, i) == Slot(words, g.at, q, i) {
    }
  }

  /** The entry for a held table is written into its parent. */
  ghost predicate LinkTable(words: Words, n: nat, g: Shape, k: Place, w: Word, words': Words, g': Shape) {
    && k in g.at && k.At? && k in g.held && k !in g.torn && Up(k) in g.at && Up(k) !in g.torn
    && IsLink(w, g.at[k].frame)
    && words' == words[Addr(g.at[Up(k)].frame, k.index) := w] && g' == g.(held := g.held - {k})
  }

  lemma LinkTableShape(words: Words, n: nat, g: Shape, k: Place, w: Word, words': Words, g': Shape)
    requires Sized(words, n) && Shaped(n, g) && LinkTable(words, n, g, k, w, words', g')
    ensures Sized(words', n) && Shaped(n, g')
    ensures Slot(words', g.at, Up(k), k.index) == w
    ensures forall q, i: nat :: q in g.at && i < ENTRIES && At(q, i) != k ==> Slot(words', g.at, q, i) == Slot(words, g.at, q, i)
  {
    assert Sized(words', n);
    forall q, i: nat | q in g.at && i < ENTRIES && At(q, i) != k ensures Slot(words', g.at, q, i) == Slot(words, g.at, q, i) {
    }
  }

  lemma LinkTableTables(words: Words, n: nat, g: Shape, k: Place, w: Word, words': Words, g': Shape)
    requires Sized(words, n) && Shaped(n, g) && TablesOk(words, n, g) && LinkTable(words, n, g, k, w, words', g')
    ensures Sized(words', n) && Shaped(n, g') && TablesOk(words', n, g')
  {
    LinkTableShape(words, n, g, k, w, words', g');
    forall q {:trigger Up(q)} | q in g.at && q.At? && q !in g'.held ensures IsLink(Slot(words', g.at, Up(q), q.index), g.at[q].frame) {
      assert q == k || q !in g.held;
      assert q == At(Up(q), q.index);
    }
    forall q, i: nat | q in g.at && q !in g'.torn && g.at[q].level > 1 && i < Limit(q) && Slot(words', g.at, q, i).present
      ensures At(q, i) in g.at && At(q, i) !in g'.held
    {
      if At(q, i) != k { assert Slot(words', g.at, q, i) == Slot(words, g.at, q, i); }
    }
  }

  lemma LinkTableLeaves(words: Words, n: nat, g: Shape, k: Place, w: Word, words': Words, g': Shape)
    requires Sized(words, n) && Shaped(n, g) && LeavesOk(words, n, g) && LinkTable(words, n, g, k, w, words', g')
    requires Sized(words', n) && Shaped(n, g')
    ensures LeavesOk(words', n, g')
  {
    forall q, i: nat | q in g.at && g.at[q].level == 1 && i < ENTRIES ensures Slot(words', g.at, q, i) == Slot(words, g.at, q, i) {
      assert q != Up(k);
    }
  }

  /** A leaf entry is cleared. */
  ghost predicate ClearLeaf(words: Words, g: Shape, k: Place, words': Words, g': Shape) {
    && k in g.leaves && k.At? && Up(k) in g.at
    && words' == words[Addr(g.at[Up(k)].frame, k.index) := ZERO_WORD] && g' == g.(leaves := g.leaves - {k})
  }

  lemma ClearLeafTables(words: Words, n: nat, g: Shape, k: Place, words': Words, g': Shape)
    requires Sized(words, n) && Shaped(n, g) && TablesOk(words, n, g) && ClearLeaf(words, g, k, words', g')
    ensures Sized(words', n) && Shaped(n, g') && TablesOk(words', n, g')
  {
    assert Sized(words', n);
    assert Shaped(n, g') by { assert Located(n, g') && Closed(g') && Apart(n, g'); }
    UpperSlots(words, n, g, words', g');
  }

  /** Tables do not change when no upper-level slot does. */
  lemma UpperSlots(words: Words, n: nat, g: Shape, words': Words, g': Shape)
    requires Sized(words, n) && Shaped(n, g) && TablesOk(words, n, g) && Sized(words', n) && Shaped(n, g')
    requires g'.at == g.at && g'.held == g.held && g'.torn == g.torn
    requires forall a :: a in words' && (a.frame !in g.owner || (g.at[g.owner[a.frame]].level > 1)) ==> words'[a] == words[a]
    ensures TablesOk(words', n, g')
  {
    forall q, i: nat | q in g.at && g.at[q].level > 1 && i < ENTRIES ensures Slot(words', g.at, q, i) == Slot(words, g.at, q, i) {
      assert g.owner[g.at[q].frame] == q;
    }
    forall q {:trigger Up(q)} | q in g'.at && q.At? && q !in g'.held ensures IsLink(Slot(words', g'.at, Up(q), q.index), g'.at[q].frame) {
      assert g.at[Up(q)].level > 1 && Slot(words', g.at, Up(q), q.index) == Slot(words, g.at, Up(q), q.index);
    }
    forall q, i: nat | q in g'.at && q !in g'.torn && g'.at[q].level > 1 && i < Limit(q) && Slot(words', g'.at, q, i).present
      ensures At(q, i) in g'.at && At(q, i) !in g'.held
    {
      assert Slot(words', g.at, q, i) == Slot(words, g.at, q, i);
    }
  }

  lemma ClearLeafLeaves(words: Words, n: nat, g: Shape, k: Place, words': Words, g': Shape)
    requires Sized(words, n) && Shaped(n, g) && LeavesOk(words, n, g) && ClearLeaf(words, g, k, words', g')
    requires Sized(words', n) && Shaped(n, g')
    ensures LeavesOk(words', n, g')
  {
    forall q, i: nat | q in g.at && i < ENTRIES && At(q, i) != k ensures Slot(words', g.at, q, i) == Slot(words, g.at, q, i) {
    }
    assert Slot(words', g.at, Up(k), k.index) == ZERO_WORD;
  }

  ghost predicate Childless(g: Shape, k: Place) {
    && (forall q {:trigger Up(q)} :: q in g.at && q.At? ==> Up(q) != k)
    && (forall q {:trigger Up(q)} :: q in g.leaves && q.At? ==> Up(q) != k)
  }

  /** A childless table leaves the shape. */
  ghost predicate RemoveTable(g: Shape, k: Place, g': Shape) {
    && k in g.at && Childless(g, k)
    && g' == g.(at := g.at - {k}, owner := g.owner - {g.at[k].frame}, held := g.held - {k}, torn := g.torn - {k})
  }

  lemma RemoveTableShape(n: nat, g: Shape, k: Place, g': Shape)
    requires Shaped(n, g) && RemoveTable(g, k, g')
    ensures Shaped(n, g')
  {
    assert Located(n, g');
    forall q {:trigger Up(q)} | q in g'.at && q.At? ensures Up(q) in g'.at && g'.at[Up(q)].level == g'.at[q].level + 1 && q.index < Limit(Up(q)) {
      assert q in g.at && Up(q) in g.at;
    }
    forall q {:trigger Up(q)} | q in g'.leaves && q.At? ensures Up(q) in g'.at && g'.at[Up(q)].level == 1 && q.index < ENTRIES {
      assert q in g.leaves && Up(q) in g.at;
    }
    assert Closed(g');
    forall f | f in g'.owner ensures g'.owner[f] in g'.at && g'.at[g'.owner[f]].frame == f {
      assert f in g.owner && g.at[g.owner[f]].frame == f;
    }
    forall q | q in g'.at ensures g'.at[q].frame in g'.owner && g'.owner[g'.at[q].frame] == q {
      assert g.owner[g.at[q].frame] == q;
    }
    assert Apart(n, g');
  }

  /** ... because its entry in its parent is cleared. */
  lemma UnlinkTable(words: Words, n: nat, g: Shape, k: Place, words': Words, g': Shape)
    requires Sized(words, n) && Shaped(n, g) && TablesOk(words, n, g) && RemoveTable(g, k, g') && Shaped(n, g')
    requires k.At? && Up(k) in g.at && Up(k) in g'.at && words' == words[Addr(g.at[Up(k)].frame, k.index) := ZERO_WORD]
    ensures Sized(words', n) && TablesOk(words', n, g')
  {
    assert Sized(words', n);
    forall q, i: nat | q in g'.at && i < ENTRIES && At(q, i) != k ensures Slot(words', g'.at, q, i) == Slot(words, g.at, q, i) {
    }
    assert Slot(words', g'.at, Up(k), k.index) == ZERO_WORD;
    forall q {:trigger Up(q)} | q in g'.at && q.At? && q !in g'.held ensures IsLink(Slot(words', g'.at, Up(q), q.index), g'.at[q].frame) {
      assert q in g.at && q == At(Up(q), q.index);
    }
  }

  lemma UnlinkLeaves(words: Words, n: nat, g: Shape, k: Place, words': Words, g': Shape)
    requires Sized(words, n) && Shaped(n, g) && LeavesOk(words, n, g) && RemoveTable(g, k, g') && Shaped(n, g')
    requires k.At? && Up(k) in g.at && words' == words[Addr(g.at[Up(k)].frame, k.index) := ZERO_WORD] && Sized(words', n)
    ensures LeavesOk(words', n, g')
  {
    forall q, i: nat | q in g'.at && g.at[q].level == 1 && i < ENTRIES ensures Slot(words', g'.at, q, i) == Slot(words, g.at, q, i) {
      assert q != Up(k);
    }
  }

  /** ... or because the address space it belongs to is being taken down. */
  lemma DropTable(words: Words, n: nat, g: Shape, k: Place, g': Shape)
    requires Structure(words, n, g) && RemoveTable(g, k, g') && Shaped(n, g')
    requires k.At? ==> Up(k) in g.torn
    ensures Structure(words, n, g')
  {
    forall q, i: nat | q in g'.at && i < ENTRIES ensures Slot(words, g'.at, q, i) == Slot(words, g.at, q, i) {
    }
    assert forall q, i: nat :: Up(At(q, i)) == q;
  }

  /** While a table is torn down its slots stop standing for anything, one by one. */
  lemma TearTable(words: Words, n: nat, g: Shape, k: Place, g': Shape)
    requires Structure(words, n, g) && k in g.held && g' == g.(torn := g.torn + {k})
    ensures Structure(words, n, g')
  {
    StillClosed(g, g');
    assert Apart(n, g');
    assert Shaped(n, g');
  }

  lemma StillClosed(g: Shape, g': Shape)
    requires Closed(g) && g'.at == g.at && g'.leaves.Keys <= g.leaves.Keys
    ensures Closed(g')
  {
    forall k {:trigger Up(k)} | k in g'.at && k.At?
      ensures Up(k) in g'.at && g'.at[Up(k)].level == g'.at[k].level + 1 && k.index < Limit(Up(k))
    {
      assert k in g.at;
    }
    forall k {:trigger Up(k)} | k in g'.leaves && k.At? ensures Up(k) in g'.at && g'.at[Up(k)].level == 1 && k.index < ENTRIES {
      assert k in g.leaves;
    }
  }

  lemma DropLeaf(words: Words, n: nat, g: Shape, k: Place, g': Shape)
    requires Structure(words, n, g) && k in g.leaves && k.At? && Up(k) in g.torn && g' == g.(leaves := g.leaves - {k})
    ensures Structure(words, n, g')
  {
    StillClosed(g, g');
    assert Apart(n, g');
    assert Shaped(n, g');
    assert TablesOk(words, n, g');
    forall q, i: nat | q in g.at && q !in g.torn && g.at[q].level == 1 && i < ENTRIES && Slot(words, g.at, q, i).present
      ensures At(q, i) in g'.leaves
    {
      assert Up(At(q, i)) == q;
    }
  }

  lemma HoldTable(words: Words, n: nat, g: Shape, k: Place, g': Shape)
    requires Structure(words, n, g) && k in g.at && k.At? && Up(k) in g.torn && g' == g.(held := g.held + {k})
    ensures Structure(words, n, g')
  {
    StillClosed(g, g');
    assert Apart(n, g');
    assert Shaped(n, g');
    assert forall q, i: nat :: Up(At(q, i)) == q;
  }

  // ---------------------------------------------------------------- elementary updates: counts

  lemma NewTableCounts(refs: seq<nat>, first: nat, g: Shape, f: nat, k: Place, l: nat, g': Shape)
    requires Counted(refs, first, g) && f < |refs| && refs[f] == 0
    requires forall j :: first <= j < f ==> refs[j] > 0
    requires k !in g.at && g'.at == g.at[k := Table(f, l)] && g'.leaves == g.leaves && g'.pins == g.pins
    ensures Counted(refs[f := 1], f + 1, g')
  {
    FreeFrameUnnamed(refs, first, g, f);
    assert TableFrames(g'.at) == TableFrames(g.at)[k := f];
    forall h: nat | h < |refs|
      ensures refs[f := 1][h] == g'.pins[h] + Refs(TableFrames(g'.at), h) + Refs(LeafFrames(g'.leaves), h)
    {
      RefsInsert(TableFrames(g.at), k, f, h);
    }
  }

  /** Counting a new leaf entry; `first` may have moved past frames in use and the new one. */
  lemma MapCounts(refs: seq<nat>, first: nat, g: Shape, k: Place, w: Word, first': nat, g': Shape)
    requires Counted(refs, first, g) && k !in g.leaves && w.frame < |refs|
    requires forall q :: q in g.leaves && g.leaves[q].frame == w.frame ==> !g.leaves[q].rw
    requires w.rw ==> refs[w.frame] == 0
    requires first <= first' <= |refs| && forall f :: first <= f < first' ==> refs[f] > 0 || f == w.frame
    requires g' == g.(leaves := g.leaves[k := w])
    ensures Counted(refs[w.frame := refs[w.frame] + 1], first', g')
  {
    assert LeafFrames(g'.leaves) == LeafFrames(g.leaves)[k := w.frame];
    forall h: nat | h < |refs|
      ensures refs[w.frame := refs[w.frame] + 1][h] == g'.pins[h] + Refs(TableFrames(g'.at), h) + Refs(LeafFrames(g'.leaves), h)
    {
      RefsInsert(LeafFrames(g.leaves), k, w.frame, h);
    }
  }

  /** `first_usable` after a count has gone down: never above a frame that became free. */
  function Lowered(refs: seq<nat>, first: nat, f: nat): nat
    requires f < |refs|
  {
    if refs[f] == 0 && f < first then f else first
  }

  lemma ClearLeafExact(refs: seq<nat>, g: Shape, k: Place, refs': seq<nat>, g': Shape)
    requires InRange(g, |refs|) && Exact(refs, g) && k in g.leaves && g' == g.(leaves := g.leaves - {k})
    requires refs[g.leaves[k].frame] > 0 && refs' == refs[g.leaves[k].frame := refs[g.leaves[k].frame] - 1]
    ensures Exact(refs', g')
  {
    assert LeafFrames(g'.leaves) == LeafFrames(g.leaves) - {k};
    forall h: nat | h < |refs|
      ensures refs'[h] == g'.pins[h] + Refs(TableFrames(g'.at), h) + Refs(LeafFrames(g'.leaves), h)
    {
      RefsRemove(LeafFrames(g.leaves), k, h);
    }
  }

  lemma ClearLeafCounts(refs: seq<nat>, first: nat, g: Shape, k: Place, refs': seq<nat>, g': Shape)
    requires Counted(refs, first, g) && k in g.leaves && g' == g.(leaves := g.leaves - {k})
    requires refs[g.leaves[k].frame] > 0 ==> refs' == refs[g.leaves[k].frame := refs[g.leaves[k].frame] - 1]
    ensures refs[g.leaves[k].frame] > 0
    ensures Counted(refs', Lowered(refs', first, g.leaves[k].frame), g')
  {
    LeafReferenced(refs, first, g, k);
    ClearLeafExact(refs, g, k, refs', g');
    forall q | q in g'.leaves && g'.leaves[q].rw ensures refs'[g'.leaves[q].frame] == 1 {
      if g.leaves[q].frame == g.leaves[k].frame { SoleReference(refs, first, g, q); }
    }
  }

  lemma RemoveTableCounts(refs: seq<nat>, first: nat, g: Shape, k: Place, refs': seq<nat>, g': Shape)
    requires Counted(refs, first, g) && k in g.at && g.at[k].frame < |refs| && RemoveTable(g, k, g')
    requires forall q :: q in g.leaves ==> g.leaves[q].frame != g.at[k].frame
    requires refs[g.at[k].frame] > 0 ==> refs' == refs[g.at[k].frame := refs[g.at[k].frame] - 1]
    ensures refs[g.at[k].frame] > 0
    ensures Counted(refs', Lowered(refs', first, g.at[k].frame), g')
  {
    TableReferenced(refs, first, g, k);
    assert TableFrames(g'.at) == TableFrames(g.at) - {k};
    forall h: nat | h < |refs|
      ensures refs'[h] == g'.pins[h] + Refs(TableFrames(g'.at), h) + Refs(LeafFrames(g'.leaves), h)
    {
      RefsRemove(TableFrames(g.at), k, h);
    }
  }

  /** A leaf entry keeps its frame and changes its flags. */
  lemma ReflagCounts(refs: seq<nat>, first: nat, g: Shape, k: Place, w: Word, g': Shape)
    requires Counted(refs, first, g) && k in g.leaves && w.frame == g.leaves[k].frame
    requires w.rw ==> refs[w.frame] == 1
    requires g' == g.(leaves := g.leaves[k := w])
    ensures Counted(refs, first, g')
  {
    assert LeafFrames(g'.leaves) == LeafFrames(g.leaves);
  }

  // ---------------------------------------------------------------- elementary updates: invariant

  predicate Absent(words: Words, f: nat, i: nat) {
    Addr(f, i) in words ==> !words[Addr(f, i)].present
  }

  lemma NewTableInv(m: Mem, g: Shape, f: nat, k: Place, l: nat, m': Mem, g': Shape)
    requires Inv(m, g) && f < |m.refs| && m.refs[f] == 0 && forall j :: m.first <= j < f ==> m.refs[j] > 0
    requires k !in g.at && 1 <= l <= 4
    requires k.Space? ==> k.root == f && l == 4
    requires k.At? ==> l < 4 && Up(k) in g.at && k.index < Limit(Up(k)) && g.at[Up(k)].level == l + 1
                       && Absent(m.words, g.at[Up(k)].frame, k.index)
    requires m' == Mem(ClearFrame(m.words, f), m.refs[f := 1], f + 1)
    requires g' == g.(at := g.at[k := Table(f, l)], owner := g.owner[f := k], held := g.held + {k})
    ensures Inv(m', g')
  {
    Open(m, g);
    var n := |m.refs|;
    assert AddTable(n, g, f, k, l, g') by { FreeFrameUnnamed(m.refs, m.first, g, f); }
    AddTableShape(n, g, f, k, l, g');
    AddTableLinked(m.words, n, g, f, k, l, m'.words, g');
    AddTableTabled(m.words, n, g, f, k, l, m'.words, g');
    AddTableLeaves(m.words, n, g, f, k, l, m'.words, g');
    NewTableCounts(m.refs, m.first, g, f, k, l, g');
  }

  lemma LinkInv(m: Mem, g: Shape, k: Place, w: Word, m': Mem, g': Shape)
    requires Inv(m, g) && LinkTable(m.words, |m.refs|, g, k, w, m'.words, g')
    requires m' == m.(words := m'.words)
    ensures Inv(m', g')
  {
    Open(m, g);
    LinkTableTables(m.words, |m.refs|, g, k, w, m'.words, g');
    LinkTableLeaves(m.words, |m.refs|, g, k, w, m'.words, g');
  }

  lemma SetLeafInv(m: Mem, g: Shape, k: Place, w: Word, m': Mem, g': Shape)
    requires Inv(m, g) && SetLeaf(m.words, |m.refs|, g, k, w, m'.words, g')
    requires |m'.refs| == |m.refs| && Counted(m'.refs, m'.first, g')
    ensures Inv(m', g')
  {
    Open(m, g);
    SetLeafShape(m.words, |m.refs|, g, k, w, m'.words, g');
    SetLeafTables(m.words, |m.refs|, g, k, w, m'.words, g');
    SetLeafLeaves(m.words, |m.refs|, g, k, w, m'.words, g');
  }

  lemma ClearLeafInv(m: Mem, g: Shape, k: Place, m': Mem, g': Shape)
    requires Inv(m, g) && ClearLeaf(m.words, g, k, m'.words, g')
    requires |m'.refs| == |m.refs| && Counted(m'.refs, m'.first, g')
    ensures Inv(m', g')
  {
    Open(m, g);
    ClearLeafTables(m.words, |m.refs|, g, k, m'.words, g');
    ClearLeafLeaves(m.words, |m.refs|, g, k, m'.words, g');
  }

  lemma UnlinkInv(m: Mem, g: Shape, k: Place, m': Mem, g': Shape)
    requires Inv(m, g) && RemoveTable(g, k, g') && k.At? && Up(k) in g.at
    requires m'.words == m.words[Addr(g.at[Up(k)].frame, k.index) := ZERO_WORD]
    requires |m'.refs| == |m.refs| && Counted(m'.refs, m'.first, g')
    ensures Inv(m', g')
  {
    Open(m, g);
    RemoveTableShape(|m.refs|, g, k, g');
    UnlinkTable(m.words, |m.refs|, g, k, m'.words, g');
    UnlinkLeaves(m.words, |m.refs|, g, k, m'.words, g');
  }

  /** Storing into a data frame, or filling a free one. */
  lemma DataInv(m: Mem, g: Shape, f: nat, words': Words)
    requires Inv(m, g) && f !in g.owner && f != g.zero
    requires words'.Keys == m.words.Keys && forall a :: a in m.words && a.frame != f ==> words'[a] == m.words[a]
    ensures Inv(m.(words := words'), g)
  {
    Open(m, g);
    assert forall q, i: nat :: q in g.at && i < ENTRIES ==> Slot(words', g.at, q, i) == Slot(m.words, g.at, q, i);
  }

  // ---------------------------------------------------------------- reading the tables

  lemma Basics(m: Mem, g: Shape)
    requires Inv(m, g)
    ensures m.first <= |m.refs| && g.zero < |m.refs| && g.zero in g.pins && g.zero !in g.owner
    ensures g.held <= g.at.Keys && g.torn <= g.held
  {
    Open(m, g);
    assert Addr(g.zero, 0) in m.words;
  }

  lemma TableFrame(m: Mem, g: Shape, k: Place)
    requires Inv(m, g) && k in g.at
    ensures g.at[k].frame < |m.refs| && m.refs[g.at[k].frame] > 0 && 1 <= g.at[k].level <= 4
    ensures g.at[k].frame in g.owner && g.owner[g.at[k].frame] == k
    ensures k.Space? <==> g.at[k].level == 4
    ensures k.Space? ==> g.at[k].frame == k.root
    ensures forall i: nat :: i < ENTRIES ==> Addr(g.at[k].frame, i) in m.words
  {
    Open(m, g);
    TableReferenced(m.refs, m.first, g, k);
  }

  lemma LeafFrame(m: Mem, g: Shape, k: Place)
    requires Inv(m, g) && k in g.leaves
    ensures k.At? && k.index < ENTRIES && Up(k) in g.at && g.at[Up(k)].level == 1
    ensures g.leaves[k].present && g.leaves[k].frame < |m.refs| && m.refs[g.leaves[k].frame] > 0 && g.leaves[k].frame !in g.owner
    ensures forall i: nat :: i < ENTRIES ==> Addr(g.leaves[k].frame, i) in m.words
    ensures Addr(g.at[Up(k)].frame, k.index) in m.words && m.words[Addr(g.at[Up(k)].frame, k.index)] == g.leaves[k]
  {
    Open(m, g);
    assert k.At?;
    assert Slot(m.words, g.at, Up(k), k.index) == g.leaves[k];
    LeafReferenced(m.refs, m.first, g, k);
  }

  lemma FreeFrame(m: Mem, g: Shape, f: nat)
    requires Inv(m, g) && f < |m.refs| && m.refs[f] == 0
    ensures f !in g.owner && f !in g.pins && f != g.zero && Space(f) !in g.at
    ensures forall k :: k in g.leaves ==> g.leaves[k].frame != f
    ensures forall i: nat :: i < ENTRIES ==> Addr(f, i) in m.words
  {
    Open(m, g);
    FreeFrameUnnamed(m.refs, m.first, g, f);
  }

  /** What a slot of an upper-level table says about the table below it. */
  lemma TableBelow(m: Mem, g: Shape, k: Place, i: nat)
    requires Inv(m, g) && k in g.at && g.at[k].level > 1 && i < Limit(k)
    ensures Addr(g.at[k].frame, i) in m.words
    ensures m.words[Addr(g.at[k].frame, i)].present && k !in g.torn ==>
              At(k, i) in g.at && At(k, i) !in g.held && IsLink(m.words[Addr(g.at[k].frame, i)], g.at[At(k, i)].frame)
              && g.at[At(k, i)].level == g.at[k].level - 1
    ensures !m.words[Addr(g.at[k].frame, i)].present && At(k, i) in g.at ==> At(k, i) in g.held
  {
    Open(m, g);
    assert Up(At(k, i)) == k;
    assert Slot(m.words, g.at, k, i) == m.words[Addr(g.at[k].frame, i)];
  }

  /** What a slot of a last-level table says about the leaf map. */
  lemma LeafBelow(m: Mem, g: Shape, k: Place, i: nat)
    requires Inv(m, g) && k in g.at && g.at[k].level == 1 && i < ENTRIES
    ensures Addr(g.at[k].frame, i) in m.words
    ensures At(k, i) in g.leaves ==> g.leaves[At(k, i)] == m.words[Addr(g.at[k].frame, i)]
    ensures m.words[Addr(g.at[k].frame, i)].present && k !in g.torn ==> At(k, i) in g.leaves
    ensures !m.words[Addr(g.at[k].frame, i)].present ==> At(k, i) !in g.leaves
  {
    Open(m, g);
    assert Up(At(k, i)) == k;
    assert Slot(m.words, g.at, k, i) == m.words[Addr(g.at[k].frame, i)];
  }

  lemma ParentLink(m: Mem, g: Shape, k: Place)
    requires Inv(m, g) && k in g.at && k.At?
    ensures Up(k) in g.at && g.at[Up(k)].level == g.at[k].level + 1 && k.index < Limit(Up(k))
    ensures Addr(g.at[Up(k)].frame, k.index) in m.words
    ensures k !in g.held ==> IsLink(m.words[Addr(g.at[Up(k)].frame, k.index)], g.at[k].frame)
  {
    Open(m, g);
    assert k !in g.held ==> IsLink(Slot(m.words, g.at, Up(k), k.index), g.at[k].frame);
  }

  // ---------------------------------------------------------------- dropping references

  function Decremented(refs: seq<nat>, f: nat): seq<nat>
    requires f < |refs| && refs[f] > 0
  {
    refs[f := refs[f] - 1]
  }

  /** Clearing a leaf entry and dropping its reference, as `free_page` does. */
  lemma ClearLeafStep(m: Mem, g: Shape, k: Place, m': Mem, g': Shape)
    requires Inv(m, g) && ClearLeaf(m.words, g, k, m'.words, g')
    requires g.leaves[k].frame < |m.refs| && m.refs[g.leaves[k].frame] > 0
    requires m'.refs == Decremented(m.refs, g.leaves[k].frame)
    requires m'.first == Lowered(m'.refs, m.first, g.leaves[k].frame)
    ensures Inv(m', g')
  {
    Open(m, g);
    ClearLeafCounts(m.refs, m.first, g, k, m'.refs, g');
    ClearLeafInv(m, g, k, m', g');
  }

  /** Clearing the entry of a childless table and dropping its reference. */
  lemma UnlinkStep(m: Mem, g: Shape, k: Place, m': Mem, g': Shape)
    requires Inv(m, g) && RemoveTable(g, k, g') && k.At? && Up(k) in g.at
    requires m'.words == m.words[Addr(g.at[Up(k)].frame, k.index) := ZERO_WORD]
    requires g.at[k].frame < |m.refs| && m.refs[g.at[k].frame] > 0
    requires m'.refs == Decremented(m.refs, g.at[k].frame)
    requires m'.first == Lowered(m'.refs, m.first, g.at[k].frame)
    ensures Inv(m', g')
  {
    Open(m, g);
    RemoveTableCounts(m.refs, m.first, g, k, m'.refs, g');
    UnlinkInv(m, g, k, m', g');
  }

  /** A table without present slots has no children. */
  lemma EmptyIsChildless(m: Mem, g: Shape, k: Place)
    requires Inv(m, g) && Settled(g) && k in g.at
    requires forall i: nat :: i < ENTRIES ==> Absent(m.words, g.at[k].frame, i)
    ensures Childless(g, k)
  {
    Open(m, g);
    forall q {:trigger Up(q)} | q in g.at && q.At? ensures Up(q) != k {
      assert IsLink(Slot(m.words, g.at, Up(q), q.index), g.at[q].frame);
      assert !Absent(m.words, g.at[Up(q)].frame, q.index);
    }
    forall q {:trigger Up(q)} | q in g.leaves && q.At? ensures Up(q) != k {
      assert Slot(m.words, g.at, Up(q), q.index) == g.leaves[q];
      assert !Absent(m.words, g.at[Up(q)].frame, q.index);
    }
  }

  // ---------------------------------------------------------------- copy on write

  /** A leaf entry moves from a shared frame to a free one. */
  lemma MoveLeafExact(refs: seq<nat>, g: Shape, k: Place, w: Word, refs': seq<nat>, g': Shape)
    requires InRange(g, |refs|) && Exact(refs, g) && k in g.leaves && refs[g.leaves[k].frame] > 1
    requires w.frame < |refs| && refs[w.frame] == 0
    requires refs' == refs[g.leaves[k].frame := refs[g.leaves[k].frame] - 1][w.frame := 1]
    requires g' == g.(leaves := g.leaves[k := w])
    ensures Exact(refs', g')
  {
    assert LeafFrames(g'.leaves) == LeafFrames(g.leaves)[k := w.frame];
    forall h: nat | h < |refs|
      ensures refs'[h] == g'.pins[h] + Refs(TableFrames(g'.at), h) + Refs(LeafFrames(g'.leaves), h)
    {
      RefsUpdate(LeafFrames(g.leaves), k, w.frame, h);
    }
  }

  lemma MoveLeafCounts(refs: seq<nat>, first: nat, g: Shape, k: Place, w: Word, refs': seq<nat>, g': Shape)
    requires Counted(refs, first, g) && k in g.leaves && refs[g.leaves[k].frame] > 1
    requires w.frame < |refs| && refs[w.frame] == 0 && forall j :: first <= j < w.frame ==> refs[j] > 0
    requires refs' == refs[g.leaves[k].frame := refs[g.leaves[k].frame] - 1][w.frame := 1]
    requires g' == g.(leaves := g.leaves[k := w])
    ensures Counted(refs', w.frame + 1, g')
  {
    MoveLeafExact(refs, g, k, w, refs', g');
    FreeFrameUnnamed(refs, first, g, w.frame);
    forall q | q in g'.leaves && g'.leaves[q].rw ensures refs'[g'.leaves[q].frame] == 1 {
      assert q != k ==> refs[g.leaves[q].frame] == 1;
    }
  }

  /** A leaf entry keeps its frame and changes its flags; it may become writable only as the sole reference. */
  lemma ReflagStep(m: Mem, g: Shape, k: Place, w: Word, m': Mem, g': Shape)
    requires Inv(m, g) && k in g.leaves && k.At? && Up(k) in g.at && w.present && w.frame == g.leaves[k].frame
    requires w.frame < |m.refs| && (w.rw ==> m.refs[w.frame] == 1)
    requires m' == m.(words := m.words[Addr(g.at[Up(k)].frame, k.index) := w])
    requires g' == g.(leaves := g.leaves[k := w])
    ensures Inv(m', g')
  {
    LeafFrame(m, g, k);
    Open(m, g);
    ReflagCounts(m.refs, m.first, g, k, w, g');
    SetLeafInv(m, g, k, w, m', g');
  }

  /** The copying branch of `cow_handler`; `m` already holds the copy in the free frame `w.frame`. */
  lemma MoveLeafStep(m: Mem, g: Shape, k: Place, w: Word, m': Mem, g': Shape)
    requires Inv(m, g) && k in g.leaves && k.At? && Up(k) in g.at && w.present && g.leaves[k].frame < |m.refs|
    requires m.refs[g.leaves[k].frame] > 1
    requires w.frame < |m.refs| && m.refs[w.frame] == 0 && forall j :: m.first <= j < w.frame ==> m.refs[j] > 0
    requires m'.words == m.words[Addr(g.at[Up(k)].frame, k.index) := w]
    requires m'.refs == m.refs[g.leaves[k].frame := m.refs[g.leaves[k].frame] - 1][w.frame := 1]
    requires m'.first == w.frame + 1 && g' == g.(leaves := g.leaves[k := w])
    ensures Inv(m', g')
  {
    LeafFrame(m, g, k);
    FreeFrame(m, g, w.frame);
    Open(m, g);
    MoveLeafCounts(m.refs, m.first, g, k, w, m'.refs, g');
    SetLeafInv(m, g, k, w, m', g');
  }

  /** A second leaf entry for a frame that no entry may write. */
  lemma ShareStep(m: Mem, g: Shape, ks: Place, kd: Place, m': Mem, g': Shape)
    requires Inv(m, g) && ks in g.leaves && !g.leaves[ks].rw && kd !in g.leaves
    requires kd.At? && Up(kd) in g.at && g.at[Up(kd)].level == 1 && kd.index < ENTRIES && g.leaves[ks].frame < |m.refs|
    requires m'.words == m.words[Addr(g.at[Up(kd)].frame, kd.index) := g.leaves[ks]]
    requires m'.refs == m.refs[g.leaves[ks].frame := m.refs[g.leaves[ks].frame] + 1] && m'.first == m.first
    requires g' == g.(leaves := g.leaves[kd := g.leaves[ks]])
    ensures Inv(m', g')
  {
    LeafFrame(m, g, ks);
    Open(m, g);
    forall q | q in g.leaves && g.leaves[q].frame == g.leaves[ks].frame ensures !g.leaves[q].rw {
      if g.leaves[q].rw { SoleReference(m.refs, m.first, g, q); }
    }
    MapCounts(m.refs, m.first, g, kd, g.leaves[ks], m.first, g');
    SetLeafInv(m, g, kd, g.leaves[ks], m', g');
  }

  /** The places of a shape are well formed. */
  lemma {:induction false} PlaceFacts(m: Mem, g: Shape, k: Place)
    requires Inv(m, g) && k in g.at
    ensures InUserHalf(k) && Depth(k) == 4 - g.at[k].level && Depth(k) <= 3
    decreases k
  {
    TableFrame(m, g, k);
    if k.At? {
      ParentLink(m, g, k);
      PlaceFacts(m, g, Up(k));
    }
  }

  lemma LeafPlaceFacts(m: Mem, g: Shape, k: Place)
    requires Inv(m, g) && k in g.leaves
    ensures InUserHalf(k) && Depth(k) == 4
  {
    LeafFrame(m, g, k);
    PlaceFacts(m, g, Up(k));
  }

  /** What lies under a slot can only be there through that slot. */
  lemma {:induction false} OnlyThrough(m: Mem, g: Shape, k: Place, c: Place)
    requires Inv(m, g) && Under(k, c) && (k in g.at || k in g.leaves)
    ensures k != c ==> c in g.at
    decreases k
  {
    if k != c {
      if k in g.leaves { LeafFrame(m, g, k); } else { ParentLink(m, g, k); }
      OnlyThrough(m, g, Up(k), c);
    }
  }

  // ---------------------------------------------------------------- taking an address space down

  lemma TearStep(m: Mem, g: Shape, k: Place, g': Shape)
    requires Inv(m, g) && k in g.held && g' == g.(torn := g.torn + {k})
    ensures Inv(m, g')
  {
    Open(m, g);
    TearTable(m.words, |m.refs|, g, k, g');
  }

  lemma HoldStep(m: Mem, g: Shape, k: Place, g': Shape)
    requires Inv(m, g) && k in g.at && k.At? && Up(k) in g.torn && g' == g.(held := g.held + {k})
    ensures Inv(m, g')
  {
    Open(m, g);
    HoldTable(m.words, |m.refs|, g, k, g');
  }

  /** A leaf entry of a torn table stops counting. */
  lemma DropLeafStep(m: Mem, g: Shape, k: Place, m': Mem, g': Shape)
    requires Inv(m, g) && k in g.leaves && k.At? && Up(k) in g.torn && g' == g.(leaves := g.leaves - {k})
    requires g.leaves[k].frame < |m.refs| && m.refs[g.leaves[k].frame] > 0
    requires m'.words == m.words && m'.refs == Decremented(m.refs, g.leaves[k].frame)
    requires m'.first == Lowered(m'.refs, m.first, g.leaves[k].frame)
    ensures Inv(m', g')
  {
    Open(m, g);
    ClearLeafCounts(m.refs, m.first, g, k, m'.refs, g');
    DropLeaf(m.words, |m.refs|, g, k, g');
  }

  /** A torn table whose slots have all been dealt with is released. */
  lemma DropTableStep(m: Mem, g: Shape, k: Place, m': Mem, g': Shape)
    requires Inv(m, g) && RemoveTable(g, k, g') && (k.At? ==> Up(k) in g.torn)
    requires g.at[k].frame < |m.refs| && m.refs[g.at[k].frame] > 0
    requires m'.words == m.words && m'.refs == Decremented(m.refs, g.at[k].frame)
    requires m'.first == Lowered(m'.refs, m.first, g.at[k].frame)
    ensures Inv(m', g')
  {
    Open(m, g);
    RemoveTableCounts(m.refs, m.first, g, k, m'.refs, g');
    RemoveTableShape(|m.refs|, g, k, g');
    DropTable(m.words, |m.refs|, g, k, g');
  }

  /** The upper half of a root table is outside the shape. */
  lemma UpperHalfInv(m: Mem, g: Shape, root: nat, i: nat, w: Word)
    requires Inv(m, g) && Space(root) in g.at && USER_ENTRIES <= i < ENTRIES
    ensures Inv(m.(words := m.words[Addr(root, i) := w]), g)
  {
    Open(m, g);
    var words' := m.words[Addr(root, i) := w];
    forall q, j: nat | q in g.at && j < Limit(q) ensures Slot(words', g.at, q, j) == Slot(m.words, g.at, q, j) {
    }
  }

  /** Two consistent states in which the same tables, leaves and pins name frames have the same counts. */
  lemma SameNamesSameCounts(m: Mem, g: Shape, m': Mem, g': Shape)
    requires Inv(m, g) && Inv(m', g') && |m.refs| == |m'.refs|
    requires g'.pins == g.pins && g'.at == g.at && LeafFrames(g'.leaves) == LeafFrames(g.leaves)
    ensures m'.refs == m.refs
  {
    assert Exact(m.refs, g) by { Open(m, g); }
    assert Exact(m'.refs, g') by { Open(m', g'); }
  }
}
