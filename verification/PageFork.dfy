/** `clone_page_tables` and `free_page_tables`: copying and taking down a whole address space. */
module PageFork {
  import opened Common
  import opened Places
  import opened PageTables
  import opened PageMachine
  import opened AddressSpaces

  /**
   The tables and leaves under the first `n` slots of `src` have copies at the same paths of
   space `d`; nothing else has appeared. Copied leaves share their frames, copy-on-write.
   */
  ghost predicate ClonedTables(before: map<Place, Table>, after: map<Place, Table>, src: Place, d: nat, n: nat) {
    && (forall k :: k in before ==> k in after && after[k] == before[k])
    && (forall k :: k in after && k !in before ==>
          RootOf(k) == d && Rebase(k, RootOf(src)) in before && Below(Rebase(k, RootOf(src)), src, n))
    && (forall k :: k in before && Below(k, src, n) ==> Rebase(k, d) in after)
  }

  ghost predicate ClonedLeaves(before: map<Place, Word>, after: map<Place, Word>, src: Place, d: nat, n: nat) {
    && (forall k :: k in before ==> k in after && after[k] == if Below(k, src, n) then CowWord(before[k]) else before[k])
    && (forall k :: k in after && k !in before ==>
          RootOf(k) == d && Rebase(k, RootOf(src)) in before && Below(Rebase(k, RootOf(src)), src, n)
          && after[k] == CowWord(before[Rebase(k, RootOf(src))]))
    && (forall k :: k in before && Below(k, src, n) ==> Rebase(k, d) in after)
  }

  lemma {:induction false} ClonedTablesNone(at: map<Place, Table>, src: Place, d: nat)
    ensures ClonedTables(at, at, src, d, 0)
  {
    forall k ensures !Below(k, src, 0) { NotBelowZero(k, src); }
  }

  lemma ClonedLeavesNone(leaves: map<Place, Word>, src: Place, d: nat)
    ensures ClonedLeaves(leaves, leaves, src, d, 0)
  {
    forall k ensures !Below(k, src, 0) { NotBelowZero(k, src); }
  }

  lemma NotBelowZero(k: Place, t: Place)
    ensures !Below(k, t, 0)
  {
  }

  /** Nothing lies under slot `n`. */
  lemma ClonedTablesSkip(before: map<Place, Table>, after: map<Place, Table>, src: Place, d: nat, n: nat)
    requires ClonedTables(before, after, src, d, n)
    requires forall k :: k in before ==> !Under(k, At(src, n))
    ensures ClonedTables(before, after, src, d, n + 1)
  {
    forall k ensures Below(k, src, n + 1) <==> Below(k, src, n) || Under(k, At(src, n)) { BelowStep(k, src, n); }
  }

  lemma ClonedLeavesSkip(before: map<Place, Word>, after: map<Place, Word>, src: Place, d: nat, n: nat)
    requires ClonedLeaves(before, after, src, d, n)
    requires forall k :: k in before ==> !Under(k, At(src, n))
    ensures ClonedLeaves(before, after, src, d, n + 1)
  {
    forall k ensures Below(k, src, n + 1) <==> Below(k, src, n) || Under(k, At(src, n)) { BelowStep(k, src, n); }
  }

  /** Slot `n` holds a leaf, which becomes copy-on-write and is entered in the copy. */
  lemma ClonedLeavesCopy(before: map<Place, Word>, mid: map<Place, Word>, src: Place, d: nat, n: nat, after: map<Place, Word>)
    requires ClonedLeaves(before, mid, src, d, n) && RootOf(src) != d
    requires At(src, n) in before && Rebase(At(src, n), d) !in before
    requires forall k :: k in before && Under(k, At(src, n)) ==> k == At(src, n)
    requires after == mid[At(src, n) := CowWord(before[At(src, n)])][Rebase(At(src, n), d) := CowWord(before[At(src, n)])]
    ensures ClonedLeaves(before, after, src, d, n + 1)
  {
    var c := At(src, n);
    RebaseFacts(c, d);
    forall k ensures Below(k, src, n + 1) <==> Below(k, src, n) || Under(k, c) { BelowStep(k, src, n); }
  }

  /** Slot `n` holds a table: its copy is made, and the entries under it are copied in turn. */
  lemma ClonedTablesDescend(before: map<Place, Table>, mid: map<Place, Table>, t: Table, after: map<Place, Table>, src: Place, d: nat, n: nat)
    requires ClonedTables(before, mid, src, d, n) && RootOf(src) != d
    requires At(src, n) in before && forall k :: k in before ==> InUserHalf(k)
    requires Rebase(At(src, n), d) !in mid
    requires ClonedTables(mid[Rebase(At(src, n), d) := t], after, At(src, n), d, ENTRIES)
    ensures ClonedTables(before, after, src, d, n + 1)
  {
    var c, s := At(src, n), RootOf(src);
    var start := mid[Rebase(c, d) := t];
    RebaseFacts(c, d);
    forall k ensures Below(k, src, n + 1) <==> Below(k, src, n) || Under(k, c) { BelowStep(k, src, n); }
    forall k | k in after && k !in before
      ensures RootOf(k) == d && Rebase(k, s) in before && Below(Rebase(k, s), src, n + 1)
    {
      if k !in start {
        BelowUnder(Rebase(k, s), c, ENTRIES);
        RebaseFacts(k, s);
      }
    }
    forall k | k in before && Below(k, src, n + 1) ensures Rebase(k, d) in after {
      if !Below(k, src, n) && k != c { UnderBelow(k, c); }
    }
  }

  lemma ClonedLeavesDescend(before: map<Place, Word>, mid: map<Place, Word>, after: map<Place, Word>, src: Place, d: nat, n: nat)
    requires ClonedLeaves(before, mid, src, d, n) && RootOf(src) != d
    requires At(src, n) !in before && forall k :: k in before ==> InUserHalf(k)
    requires ClonedLeaves(mid, after, At(src, n), d, ENTRIES)
    ensures ClonedLeaves(before, after, src, d, n + 1)
  {
    var c, s := At(src, n), RootOf(src);
    forall k ensures Below(k, src, n + 1) <==> Below(k, src, n) || Under(k, c) { BelowStep(k, src, n); }
    forall k | k in before ensures Under(k, c) <==> Below(k, c, ENTRIES) {
      if Under(k, c) { UnderBelow(k, c); }
      if Below(k, c, ENTRIES) { BelowUnder(k, c, ENTRIES); }
    }
    forall k | k in after && k !in before
      ensures RootOf(k) == d && Rebase(k, s) in before && Below(Rebase(k, s), src, n + 1)
              && after[k] == CowWord(before[Rebase(k, s)])
    {
      if k in mid {
        if Below(k, c, ENTRIES) { BelowUnder(k, c, ENTRIES); }
      } else {
        BelowUnder(Rebase(k, s), c, ENTRIES);
        RebaseFacts(k, s);
      }
    }
  }

  // ---------------------------------------------------------------- one slot of a table

  predicate Copied(z: int) {
    true
  }

  ghost predicate ClonedShape(g: Shape, g': Shape, src: Place, d: nat, n: nat) {
    && g'.pins == g.pins && g'.zero == g.zero && g'.held == g.held && g'.torn == g.torn
    && ClonedTables(g.at, g'.at, src, d, n) && ClonedLeaves(g.leaves, g'.leaves, src, d, n)
  }

  /** (Guarded as `Inv` is.) */
  ghost predicate Cloned(g: Shape, g': Shape, src: Place, d: nat, n: nat) {
    forall z {:trigger Copied(z)} :: Copied(z) ==> ClonedShape(g, g', src, d, n)
  }

  ghost predicate Barren(g: Shape, k: Place) {
    && (forall q :: q in g.at && Under(q, k) ==> q == k)
    && (forall q :: q in g.leaves ==> !Under(q, k))
  }

  /** The copy `dst` of `src` exists and is empty; only copies in space `d` are under construction. */
  ghost predicate CloneReady(g: Shape, src: Place, dst: Place, d: nat, from: nat, to: nat, level: nat) {
    && g.torn == {} && (forall k :: k in g.held && k.At? ==> RootOf(k) == d)
    && RootOf(src) != d && dst == Rebase(src, d) && 1 <= level <= 4
    && src in g.at && g.at[src] == Table(from, level) && dst in g.at && g.at[dst] == Table(to, level)
    && Barren(g, dst)
  }

  lemma CloneNone(g: Shape, src: Place, d: nat)
    ensures Cloned(g, g, src, d, 0)
  {
    ClonedTablesNone(g.at, src, d);
    ClonedLeavesNone(g.leaves, src, d);
  }

  lemma CloneKeeps(g: Shape, g': Shape, src: Place, d: nat, n: nat, k: Place)
    requires Cloned(g, g', src, d, n)
    ensures g'.held == g.held && g'.torn == g.torn
    ensures k in g.at ==> k in g'.at && g'.at[k] == g.at[k]
    ensures k in g.leaves ==> k in g'.leaves
    ensures k in g'.at && RootOf(k) != d ==> k in g.at
    ensures k in g'.leaves && RootOf(k) != d ==> k in g.leaves
  {
    assert Copied(0);
  }

  lemma CloneSkip(m: Mem, g: Shape, g': Shape, src: Place, d: nat, n: nat)
    requires Inv(m, g) && Cloned(g, g', src, d, n) && At(src, n) !in g.at && At(src, n) !in g.leaves
    ensures Cloned(g, g', src, d, n + 1)
  {
    assert Copied(0);
    forall k | k in g.at || k in g.leaves ensures !Under(k, At(src, n)) {
      if Under(k, At(src, n)) { OnlyThrough(m, g, k, At(src, n)); }
    }
    ClonedTablesSkip(g.at, g'.at, src, d, n);
    ClonedLeavesSkip(g.leaves, g'.leaves, src, d, n);
  }

  /** The slot of the copy that comes next is still empty, all the way down. */
  lemma NextSlotFree(g: Shape, g': Shape, src: Place, dst: Place, d: nat, n: nat)
    requires Cloned(g, g', src, d, n) && dst == Rebase(src, d) && Barren(g, dst)
    ensures forall k :: k in g'.at || k in g'.leaves ==> !Under(k, At(dst, n))
  {
    assert Copied(0);
    var s := RootOf(src);
    RebaseFacts(src, d);
    forall k | k in g'.at || k in g'.leaves ensures !Under(k, At(dst, n)) {
      if Under(k, At(dst, n)) {
        UnderDepth(k, At(dst, n));
        UnderTransitive(k, At(dst, n), dst);
        RebaseFacts(k, s);
        RebaseFacts(At(dst, n), s);
        RebaseUnder(k, At(dst, n), s, 0);
        BelowNotUnder(Rebase(k, s), src, n, n);
      }
    }
  }

  lemma CloneLeafStep(m: Mem, g: Shape, g1: Shape, g2: Shape, src: Place, dst: Place, d: nat, n: nat)
    requires Inv(m, g) && Cloned(g, g1, src, d, n) && RootOf(src) != d && dst == Rebase(src, d) && Barren(g, dst)
    requires At(src, n) in g.leaves && At(src, n) in g1.leaves && At(dst, n) !in g1.leaves
    requires g2 == g1.(leaves := g1.leaves[At(src, n) := CowWord(g1.leaves[At(src, n)])]
                                          [At(dst, n) := CowWord(g1.leaves[At(src, n)])])
    ensures Cloned(g, g2, src, d, n + 1)
  {
    assert Copied(0);
    var c := At(src, n);
    LeafPlaceFacts(m, g, c);
    assert CowWord(CowWord(g.leaves[c])) == CowWord(g.leaves[c]);
    forall k | k in g.at ensures !Under(k, c) {
      PlaceFacts(m, g, k);
      if Under(k, c) { UnderDepth(k, c); }
    }
    forall k | k in g.leaves && Under(k, c) ensures k == c {
      LeafPlaceFacts(m, g, k);
      UnderDepth(k, c);
    }
    RebaseFacts(c, d);
    assert Under(At(dst, n), dst);
    ClonedTablesSkip(g.at, g1.at, src, d, n);
    ClonedLeavesCopy(g.leaves, g1.leaves, src, d, n, g2.leaves);
  }

  lemma CloneTableStep(m: Mem, g: Shape, g1: Shape, t: Table, g2: Shape, g3: Shape, g4: Shape, src: Place, d: nat, n: nat)
    requires Inv(m, g) && Cloned(g, g1, src, d, n) && RootOf(src) != d
    requires At(src, n) in g.at && Rebase(At(src, n), d) !in g1.at && Rebase(At(src, n), d) !in g1.held
    requires g2 == g1.(at := g1.at[Rebase(At(src, n), d) := t], owner := g2.owner, held := g1.held + {Rebase(At(src, n), d)})
    requires Cloned(g2, g3, At(src, n), d, ENTRIES)
    requires g4 == g3.(held := g3.held - {Rebase(At(src, n), d)})
    ensures Cloned(g, g4, src, d, n + 1)
  {
    assert Copied(0);
    forall k | k in g.at ensures InUserHalf(k) { PlaceFacts(m, g, k); }
    forall k | k in g.leaves ensures InUserHalf(k) { LeafPlaceFacts(m, g, k); }
    PlaceFacts(m, g, At(src, n));
    if At(src, n) in g.leaves { LeafPlaceFacts(m, g, At(src, n)); }
    ClonedTablesDescend(g.at, g1.at, t, g3.at, src, d, n);
    ClonedLeavesDescend(g.leaves, g1.leaves, g3.leaves, src, d, n);
    assert g4.held == g.held;
  }

  // ---------------------------------------------------------------- clone_page_tables

  /** A present leaf entry: it loses write permission to copy-on-write, gains a reference and is copied. */
  method CloneLeaf(mach: Machine, ghost ks: Place, ghost kd: Place, from: nat, to: nat, i: nat)
    requires mach.Valid() && ks in mach.g.leaves && ks.At? && ks.index == i && Up(ks) in mach.g.at && mach.g.at[Up(ks)].frame == from
    requires kd !in mach.g.leaves && kd.At? && kd.index == i && i < ENTRIES && Up(kd) in mach.g.at && mach.g.at[Up(kd)] == Table(to, 1)
    modifies mach`words, mach`g, mach.refs
    ensures mach.Valid() && Grown(old(mach.Now()), old(mach.g), mach.Now(), mach.g)
    ensures mach.g == old(mach.g).(leaves := old(mach.g).leaves[ks := CowWord(old(mach.g).leaves[ks])]
                                                               [kd := CowWord(old(mach.g).leaves[ks])])
  {
    ghost var m, g := mach.Now(), mach.g;
    LeafFrame(m, g, ks);
    TableFrame(m, g, Up(ks));
    TableFrame(m, g, Up(kd));
    var w := CowWord(mach.words[Addr(from, i)]);
    mach.words := mach.words[Addr(from, i) := w];
    ghost var g1 := g.(leaves := g.leaves[ks := w]);
    ghost var m1 := mach.Now();
    ReflagStep(m, g, ks, w, m1, g1);
    SlotGrows(m, g, from, i, w, m1, g1);
    mach.SetRef(w.frame, mach.refs[w.frame] + 1);
    mach.words := mach.words[Addr(to, i) := w];
    ghost var g2 := g1.(leaves := g1.leaves[kd := w]);
    ShareStep(m1, g1, ks, kd, mach.Now(), g2);
    SlotGrows(m1, g1, to, i, w, mach.Now(), g2);
    GrownTransitive(m, g, m1, g1, mach.Now(), g2);
    mach.g := g2;
  }

  /** What slot `i` of a table under copy says, given that only copies are held. */
  lemma SourceSlot(m: Mem, g: Shape, src: Place, d: nat, i: nat)
    requires Inv(m, g) && g.torn == {} && (forall k :: k in g.held && k.At? ==> RootOf(k) == d)
    requires RootOf(src) != d && src in g.at && i < Limit(src)
    ensures Addr(g.at[src].frame, i) in m.words
    ensures m.words[Addr(g.at[src].frame, i)].present <==> At(src, i) in (if g.at[src].level == 1 then g.leaves.Keys else g.at.Keys)
    ensures g.at[src].level == 1 ==> At(src, i) !in g.at
    ensures g.at[src].level > 1 ==> At(src, i) !in g.leaves
    ensures g.at[src].level > 1 && At(src, i) in g.at ==>
              g.at[At(src, i)] == Table(m.words[Addr(g.at[src].frame, i)].frame, g.at[src].level - 1)
  {
    var c := At(src, i);
    assert Up(c) == src && RootOf(c) == RootOf(src);
    TableFrame(m, g, src);
    if c in g.at { ParentLink(m, g, c); TableFrame(m, g, c); }
    if c in g.leaves { LeafFrame(m, g, c); }
    if g.at[src].level == 1 { LeafBelow(m, g, src, i); } else { TableBelow(m, g, src, i); }
  }

  /** Everything `CloneEntries` needs for a child and its fresh copy. */
  lemma ChildReady(g: Shape, g1: Shape, src: Place, dst: Place, d: nat, i: nat, from: nat, to: nat, level: nat, owner: map<nat, Place>)
    requires src in g.at && dst in g.at && dst == Rebase(src, d) && RootOf(src) != d
    requires g.torn == {} && forall k :: k in g.held && k.At? ==> RootOf(k) == d
    requires At(src, i) in g.at && g.at[At(src, i)] == Table(from, level) && 1 <= level <= 3
    requires forall k :: k in g.at || k in g.leaves ==> !Under(k, At(dst, i))
    requires g1 == g.(at := g.at[At(dst, i) := Table(to, level)], owner := owner, held := g.held + {At(dst, i)})
    ensures CloneReady(g1, At(src, i), At(dst, i), d, from, to, level)
  {
    RebaseFacts(src, d);
    assert RootOf(At(dst, i)) == d;
    assert Under(At(dst, i), At(dst, i));
    assert At(src, i) != At(dst, i) by { assert RootOf(At(src, i)) != d; }
    assert RootOf(At(src, i)) == RootOf(src);
  }

  /** A present entry of an upper-level table: a new table, filled recursively, then linked. */
  method CloneTable(mach: Machine, ghost src: Place, ghost dst: Place, ghost d: nat,
                    from: nat, to: nat, i: nat, level: nat) returns (ok: bool, ghost t: Table, ghost g1: Shape, ghost g2: Shape)
    requires mach.Valid() && src in mach.g.at && dst in mach.g.at && dst == Rebase(src, d) && RootOf(src) != d
    requires mach.g.torn == {} && forall k :: k in mach.g.held && k.At? ==> RootOf(k) == d
    requires At(src, i) in mach.g.at && mach.g.at[At(src, i)] == Table(from, level) && 1 <= level <= 3 && i < Limit(src)
    requires mach.g.at[dst] == Table(to, level + 1)
    requires forall k :: k in mach.g.at || k in mach.g.leaves ==> !Under(k, At(dst, i))
    modifies mach`firstUsable, mach`words, mach`g, mach.refs
    ensures ok ==>
      && mach.Valid() && Grown(old(mach.Now()), old(mach.g), mach.Now(), mach.g)
      && At(dst, i) !in old(mach.g).held
      && g1 == old(mach.g).(at := old(mach.g).at[At(dst, i) := t], owner := g1.owner, held := old(mach.g).held + {At(dst, i)})
      && Cloned(g1, g2, At(src, i), d, ENTRIES)
      && mach.g == g2.(held := g2.held - {At(dst, i)})
    ensures !ok ==> mach.Exhausted()
    decreases level, 4
  {
    ghost var m, g := mach.Now(), mach.g;
    ghost var c, k := At(src, i), At(dst, i);
    g1, g2, t := g, g, Table(0, level);
    Basics(m, g);
    RebaseFacts(src, d);
    assert Up(k) == dst;
    assert k !in g.at by { assert Under(k, k); }
    TableFrame(m, g, dst);
    TableBelow(m, g, dst, i);
    var new_ := mach.NewTable(Some(k), level);
    if new_.None? { return false, t, g1, g2; }
    g1, t := mach.g, Table(new_.value, level);
    ChildReady(g, g1, src, dst, d, i, from, new_.value, level, g1.owner);
    label made:
    ok := CloneEntries(mach, c, k, d, from, new_.value, level);
    if !ok { return; }
    g2 := mach.g;
    CloneKeeps(g1, g2, c, d, ENTRIES, k);
    CloneKeeps(g1, g2, c, d, ENTRIES, dst);
    GrownTransitive(m, g, old@made(mach.Now()), g1, mach.Now(), g2);
    label filled:
    mach.Link(k, to, i, new_.value);
    GrownTransitive(m, g, old@filled(mach.Now()), g2, mach.Now(), mach.g);
  }

  /** One iteration of the loops of `clone_page_tables`; `m` and `g` are the state before the table's loop. */
  method CloneSlot(mach: Machine, ghost m: Mem, ghost g: Shape, ghost src: Place, ghost dst: Place, ghost d: nat,
                   from: nat, to: nat, level: nat, i: nat) returns (ok: bool)
    requires mach.Valid() && Inv(m, g) && CloneReady(g, src, dst, d, from, to, level) && i < Limit(src)
    requires Cloned(g, mach.g, src, d, i)
    modifies mach`firstUsable, mach`words, mach`g, mach.refs
    ensures ok ==> mach.Valid() && Cloned(g, mach.g, src, d, i + 1)
                   && Grown(old(mach.Now()), old(mach.g), mach.Now(), mach.g)
    ensures !ok ==> mach.Exhausted()
    decreases level, 2
  {
    ghost var m1, g1 := mach.Now(), mach.g;
    CloneKeeps(g, g1, src, d, i, src);
    CloneKeeps(g, g1, src, d, i, dst);
    CloneKeeps(g, g1, src, d, i, At(src, i));
    NextSlotFree(g, g1, src, dst, d, i);
    SourceSlot(m1, g1, src, d, i);
    assert Under(At(dst, i), At(dst, i));
    var entry := mach.words[Addr(from, i)];
    ok := true;
    if !entry.present {
      CloneSkip(m, g, g1, src, d, i);
      GrownReflexive(m1, g1);
    } else if level == 1 {
      assert Up(At(src, i)) == src && Up(At(dst, i)) == dst;
      CloneLeaf(mach, At(src, i), At(dst, i), from, to, i);
      CloneLeafStep(m, g, g1, mach.g, src, dst, d, i);
    } else {
      ghost var t, g2, g3;
      ok, t, g2, g3 := CloneTable(mach, src, dst, d, entry.frame, to, i, level - 1);
      if !ok { return; }
      CloneTableStep(m, g, g1, t, g2, g3, mach.g, src, d, i);
    }
  }

  /** The loop over the slots of one table: the nested loops of `clone_page_tables`, one level at a time. */
  method CloneEntries(mach: Machine, ghost src: Place, ghost dst: Place, ghost d: nat, from: nat, to: nat, level: nat) returns (ok: bool)
    requires mach.Valid() && CloneReady(mach.g, src, dst, d, from, to, level)
    modifies mach`firstUsable, mach`words, mach`g, mach.refs
    ensures ok ==> mach.Valid() && Cloned(old(mach.g), mach.g, src, d, Limit(src))
                   && Grown(old(mach.Now()), old(mach.g), mach.Now(), mach.g)
    ensures !ok ==> mach.Exhausted()
    decreases level, 3
  {
    ghost var m, g := mach.Now(), mach.g;
    TableFrame(m, g, src);
    CloneNone(g, src, d);
    GrownReflexive(m, g);
    var i, limit := 0, if level == 4 then USER_ENTRIES else ENTRIES;
    while i < limit
      invariant i <= limit && mach.Valid()
      invariant Cloned(g, mach.g, src, d, i) && Grown(m, g, mach.Now(), mach.g)
    {
      label before:
      ok := CloneSlot(mach, m, g, src, dst, d, from, to, level, i);
      if !ok { return; }
      GrownTransitive(m, g, old@before(mach.Now()), old@before(mach.g), mach.Now(), mach.g);
      i := i + 1;
    }
    ok := true;
  }

  /** The tables of space `d` have appeared; the others are as before. */
  ghost predicate OneSpaceMore(before: map<Place, Table>, after: map<Place, Table>, d: nat) {
    && (forall k :: k in before ==> RootOf(k) != d && k in after && after[k] == before[k])
    && (forall k :: k in after && k !in before ==> RootOf(k) == d)
  }

  /**
   Every leaf of space `s` has its copy in the new space `d`; both sides of each pair share a
   frame and are copy-on-write where `s` was writable.
   */
  ghost predicate Forked(before: map<Place, Word>, after: map<Place, Word>, s: nat, d: nat) {
    && (forall k :: k in before ==>
          RootOf(k) != d && k in after && after[k] == (if RootOf(k) == s then CowWord(before[k]) else before[k]))
    && (forall k :: k in after && k !in before ==>
          RootOf(k) == d && Rebase(k, s) in before && after[k] == CowWord(before[Rebase(k, s)]))
    && (forall k :: k in before && RootOf(k) == s ==> Rebase(k, d) in after)
  }

  lemma WholeSpaceForked(m: Mem, g: Shape, g1: Shape, g2: Shape, s: nat, d: nat, t: Table)
    requires Inv(m, g) && s != d && Space(d) !in g.at && g1.leaves == g.leaves && Cloned(g1, g2, Space(s), d, USER_ENTRIES)
    requires g1.at == g.at[Space(d) := t]
    ensures Forked(g.leaves, g2.leaves, s, d) && OneSpaceMore(g.at, g2.at, d)
  {
    assert Copied(0);
    forall k | k in g.at ensures RootOf(k) != d {
      RootUnder(k);
      OnlyThrough(m, g, k, Space(RootOf(k)));
    }
    forall k | k in g.leaves
      ensures RootOf(k) != d && (Below(k, Space(s), USER_ENTRIES) <==> RootOf(k) == s)
    {
      LeafPlaceFacts(m, g, k);
      RootUnder(k);
      OnlyThrough(m, g, k, Space(RootOf(k)));
      if RootOf(k) == s { UnderBelow(k, Space(s)); }
      if Below(k, Space(s), USER_ENTRIES) { BelowUnder(k, Space(s), USER_ENTRIES); }
    }
  }

  lemma RootUnder(k: Place)
    ensures Under(k, Space(RootOf(k)))
  {
  }

  lemma RootReady(m: Mem, g: Shape, g1: Shape, root: nat, d: nat, owner: map<nat, Place>)
    requires Inv(m, g) && Settled(g) && Space(root) in g.at && Space(d) !in g.at
    requires g1 == g.(at := g.at[Space(d) := Table(d, 4)], owner := owner, held := g.held + {Space(d)})
    ensures CloneReady(g1, Space(root), Space(d), d, root, d, 4)
  {
    TableFrame(m, g, Space(root));
    forall q | q in g.at && Under(q, Space(d)) ensures q == Space(d) { OnlyThrough(m, g, q, Space(d)); }
    forall q | q in g.leaves ensures !Under(q, Space(d)) {
      LeafFrame(m, g, q);
      if Under(q, Space(d)) { OnlyThrough(m, g, q, Space(d)); }
    }
  }

  predicate SameWord(words: Words, a: Addr, b: Addr) {
    a in words && b in words && words[a] == words[b]
  }

  /** The kernel half is shared: its top-level entries are copied word for word. */
  method ShareUpperHalf(mach: Machine, root: nat, d: nat)
    requires mach.Valid() && Space(root) in mach.g.at && Space(d) in mach.g.at && root != d
    modifies mach`words
    ensures mach.Valid() && Grown(old(mach.Now()), mach.g, mach.Now(), mach.g)
    ensures forall i: nat :: USER_ENTRIES <= i < ENTRIES ==> SameWord(mach.words, Addr(d, i), Addr(root, i))
  {
    ghost var m, g := mach.Now(), mach.g;
    TableFrame(m, g, Space(root));
    TableFrame(m, g, Space(d));
    GrownReflexive(m, g);
    var i := USER_ENTRIES;
    while i < ENTRIES
      invariant USER_ENTRIES <= i <= ENTRIES && mach.Valid() && mach.words.Keys == m.words.Keys
      invariant Grown(m, g, mach.Now(), g)
      invariant forall j: nat :: USER_ENTRIES <= j < i ==> SameWord(mach.words, Addr(d, j), Addr(root, j))
    {
      ghost var m1 := mach.Now();
      var w := mach.words[Addr(root, i)];
      mach.words := mach.words[Addr(d, i) := w];
      UpperHalfInv(m1, g, d, i, w);
      SlotGrows(m1, g, d, i, w, mach.Now(), g);
      GrownTransitive(m, g, m1, g, mach.Now(), g);
      i := i + 1;
    }
  }

  /** `clone_page_tables`; `None` is the out-of-memory panic. */
  method ClonePageTables(mach: Machine, root: nat) returns (r: Option<nat>)
    requires mach.Idle() && Space(root) in mach.g.at
    modifies mach`firstUsable, mach`words, mach`g, mach.refs
    ensures r.Some? ==>
      && mach.Idle() && Space(r.value) !in old(mach.g).at && Space(r.value) in mach.g.at
      && mach.g.held == old(mach.g).held + {Space(r.value)}
      && Forked(old(mach.g).leaves, mach.g.leaves, root, r.value)
      && OneSpaceMore(old(mach.g).at, mach.g.at, r.value)
      && Grown(old(mach.Now()), old(mach.g), mach.Now(), mach.g)
      && forall i: nat :: USER_ENTRIES <= i < ENTRIES ==> SameWord(mach.words, Addr(r.value, i), Addr(root, i))
    ensures r.None? ==> mach.Exhausted()
  {
    ghost var m, g := mach.Now(), mach.g;
    TableFrame(m, g, Space(root));
    r := mach.NewTable(None, 4);
    if r.None? { return; }
    var d := r.value;
    ghost var m1, g1 := mach.Now(), mach.g;
    RootReady(m, g, g1, root, d, g1.owner);
    var ok := CloneEntries(mach, Space(root), Space(d), d, root, d, 4);
    if !ok { return None; }
    CloneKeeps(g1, mach.g, Space(root), d, USER_ENTRIES, Space(root));
    CloneKeeps(g1, mach.g, Space(root), d, USER_ENTRIES, Space(d));
    CloneKeeps(g1, mach.g, Space(root), d, USER_ENTRIES, Space(mach.pml4));
    WholeSpaceForked(m, g, g1, mach.g, root, d, Table(d, 4));
    GrownTransitive(m, g, m1, g1, mach.Now(), mach.g);
    ghost var m2 := mach.Now();
    ShareUpperHalf(mach, root, d);
    GrownTransitive(m, g, m2, mach.g, mach.Now(), mach.g);
  }

  // ---------------------------------------------------------------- free_page_tables

  /** What lay under the first `n` slots of `k` is gone. */
  ghost predicate Freed(g: Shape, g': Shape, k: Place, n: nat) {
    && g'.pins == g.pins && g'.zero == g.zero && g'.held == g.held && g'.torn == g.torn + {k}
    && (forall q :: q in g'.at <==> q in g.at && !Below(q, k, n))
    && (forall q :: q in g'.at ==> g'.at[q] == g.at[q])
    && (forall q :: q in g'.leaves <==> q in g.leaves && !Below(q, k, n))
    && (forall q :: q in g'.leaves ==> g'.leaves[q] == g.leaves[q])
  }

  /** The table at `k` and everything under it is gone. */
  ghost predicate Gone(g: Shape, g': Shape, k: Place) {
    && g'.pins == g.pins && g'.zero == g.zero && g'.held == g.held - {k} && g'.torn == g.torn
    && (forall q :: q in g'.at <==> q in g.at && !Under(q, k))
    && (forall q :: q in g'.at ==> g'.at[q] == g.at[q])
    && (forall q :: q in g'.leaves <==> q in g.leaves && !Under(q, k))
    && (forall q :: q in g'.leaves ==> g'.leaves[q] == g.leaves[q])
  }

  ghost predicate FreeReady(g: Shape, k: Place, frame: nat, level: nat) {
    && k in g.at && g.at[k] == Table(frame, level) && 1 <= level <= 4
    && (forall q :: q in g.held && Under(q, k) ==> q == k) && k in g.held && k !in g.torn
    && (k.At? ==> Up(k) in g.torn)
  }

  lemma FreedSkip(m: Mem, g: Shape, g': Shape, k: Place, n: nat)
    requires Inv(m, g) && Freed(g, g', k, n) && At(k, n) !in g.at && At(k, n) !in g.leaves
    ensures Freed(g, g', k, n + 1)
  {
    forall q | q in g.at || q in g.leaves ensures Below(q, k, n + 1) <==> Below(q, k, n) {
      BelowStep(q, k, n);
      if Under(q, At(k, n)) { OnlyThrough(m, g, q, At(k, n)); }
    }
  }

  lemma FreedLeaf(m: Mem, g: Shape, g1: Shape, g2: Shape, k: Place, n: nat)
    requires Inv(m, g) && Freed(g, g1, k, n) && At(k, n) in g.leaves && g2 == g1.(leaves := g1.leaves - {At(k, n)})
    ensures Freed(g, g2, k, n + 1)
  {
    var c := At(k, n);
    LeafPlaceFacts(m, g, c);
    forall q | q in g.at ensures Below(q, k, n + 1) <==> Below(q, k, n) {
      BelowStep(q, k, n);
      PlaceFacts(m, g, q);
      if Under(q, c) { UnderDepth(q, c); }
    }
    forall q | q in g.leaves ensures Below(q, k, n + 1) <==> Below(q, k, n) || q == c {
      BelowStep(q, k, n);
      LeafPlaceFacts(m, g, q);
      if Under(q, c) { UnderDepth(q, c); }
    }
  }

  lemma FreedTable(g: Shape, g1: Shape, g2: Shape, g3: Shape, k: Place, n: nat)
    requires Freed(g, g1, k, n) && At(k, n) !in g1.held
    requires g2 == g1.(held := g1.held + {At(k, n)}) && Gone(g2, g3, At(k, n))
    ensures Freed(g, g3, k, n + 1)
  {
    forall q ensures Below(q, k, n + 1) <==> Below(q, k, n) || Under(q, At(k, n)) { BelowStep(q, k, n); }
  }

  lemma FreedAll(m: Mem, g: Shape, g1: Shape, g2: Shape, k: Place, frame: nat, level: nat)
    requires Inv(m, g) && FreeReady(g, k, frame, level) && Freed(g, g1, k, Limit(k)) && k in g1.at
    requires g2 == g1.(at := g1.at - {k}, owner := g1.owner - {g1.at[k].frame}, held := g1.held - {k}, torn := g1.torn - {k})
    ensures RemoveTable(g1, k, g2) && Gone(g, g2, k)
  {
    forall q | q in g.at ensures Under(q, k) <==> q == k || Below(q, k, Limit(k)) {
      PlaceFacts(m, g, q);
      if Under(q, k) && q != k { UnderBelow(q, k); }
      if Below(q, k, Limit(k)) { BelowUnder(q, k, Limit(k)); }
    }
    forall q | q in g.leaves ensures Under(q, k) <==> Below(q, k, Limit(k)) {
      LeafPlaceFacts(m, g, q);
      if q == k { PlaceFacts(m, g, k); }
      if Under(q, k) && q != k { UnderBelow(q, k); }
      if Below(q, k, Limit(k)) { BelowUnder(q, k, Limit(k)); }
    }
    forall q: Place {:trigger Up(q)} | q.At? && (q in g1.at || q in g1.leaves) ensures Up(q) != k {
      if Up(q) == k { assert Under(q, k); UnderDepth(k, k); }
    }
  }

  /** What slot `i` of a table being freed says, judged by the state `g` before its loop. */
  lemma DoomedSlot(m: Mem, g: Shape, k: Place, frame: nat, level: nat, i: nat)
    requires Inv(m, g) && FreeReady(g, k, frame, level) && i < Limit(k)
    ensures Addr(frame, i) in m.words
    ensures m.words[Addr(frame, i)].present <==> At(k, i) in (if level == 1 then g.leaves.Keys else g.at.Keys)
    ensures level == 1 ==> At(k, i) !in g.at
    ensures level > 1 ==> At(k, i) !in g.leaves
    ensures level == 1 && At(k, i) in g.leaves ==> g.leaves[At(k, i)] == m.words[Addr(frame, i)]
    ensures level > 1 && At(k, i) in g.at ==> g.at[At(k, i)] == Table(m.words[Addr(frame, i)].frame, level - 1)
  {
    var c := At(k, i);
    assert Up(c) == k && Under(c, k);
    TableFrame(m, g, k);
    if c in g.at { ParentLink(m, g, c); TableFrame(m, g, c); }
    if c in g.leaves { LeafFrame(m, g, c); }
    if level == 1 { LeafBelow(m, g, k, i); } else { TableBelow(m, g, k, i); }
  }

  /** One iteration: a leaf entry drops its reference, a table is freed with all it holds. */
  method FreeSlot(mach: Machine, ghost m: Mem, ghost g: Shape, ghost k: Place, frame: nat, level: nat, i: nat)
    requires mach.Valid() && Inv(m, g) && FreeReady(g, k, frame, level) && i < Limit(k)
    requires Freed(g, mach.g, k, i) && mach.words == m.words
    modifies mach`firstUsable, mach`g, mach.refs
    ensures mach.Valid() && Freed(g, mach.g, k, i + 1)
    decreases level, 1
  {
    ghost var c, g1 := At(k, i), mach.g;
    assert Up(c) == k;
    DoomedSlot(m, g, k, frame, level, i);
    var entry := mach.words[Addr(frame, i)];
    if !entry.present {
      FreedSkip(m, g, g1, k, i);
    } else if level == 1 {
      if Below(c, k, i) { BelowNotUnder(c, k, i, i); }
      LeafFrame(mach.Now(), g1, c);
      ghost var m1 := mach.Now();
      mach.Drop(entry.frame);
      ghost var g2 := g1.(leaves := g1.leaves - {c});
      DropLeafStep(m1, g1, c, mach.Now(), g2);
      mach.g := g2;
      FreedLeaf(m, g, g1, g2, k, i);
    } else {
      if Below(c, k, i) { BelowNotUnder(c, k, i, i); }
      assert Under(c, k);
      Basics(m, g);
      ghost var g2 := g1.(held := g1.held + {c});
      HoldStep(mach.Now(), g1, c, g2);
      mach.g := g2;
      ChildDoomed(g, g1, g2, k, i, entry.frame, level);
      FreeEntries(mach, c, entry.frame, level - 1);
      FreedTable(g, g1, g2, mach.g, k, i);
    }
  }

  lemma ChildDoomed(g: Shape, g1: Shape, g2: Shape, k: Place, i: nat, frame: nat, level: nat)
    requires g.torn <= g.held && k in g.held && (forall q :: q in g.held && Under(q, k) ==> q == k) && k !in g.torn
    requires Freed(g, g1, k, i) && g2 == g1.(held := g1.held + {At(k, i)}) && 2 <= level <= 4
    requires At(k, i) in g1.at && g1.at[At(k, i)] == Table(frame, level - 1)
    ensures FreeReady(g2, At(k, i), frame, level - 1)
  {
    var c := At(k, i);
    assert Up(c) == k && Under(c, k);
    forall q | q in g2.held && Under(q, c) ensures q == c {
      if q in g.held {
        UnderTransitive(q, c, k);
        UnderDepth(k, c);
      }
    }
    assert c !in g.held;
  }

  /** The loops of `free_page_tables` below one table, and the release of the table itself. */
  method FreeEntries(mach: Machine, ghost k: Place, frame: nat, level: nat)
    requires mach.Valid() && FreeReady(mach.g, k, frame, level)
    modifies mach`firstUsable, mach`g, mach.refs
    ensures mach.Valid() && Gone(old(mach.g), mach.g, k)
    decreases level, 2
  {
    ghost var m, g := mach.Now(), mach.g;
    TableFrame(m, g, k);
    ghost var g1 := g.(torn := g.torn + {k});
    TearStep(m, g, k, g1);
    mach.g := g1;
    forall q ensures !Below(q, k, 0) { NotBelowZero(q, k); }
    var i, limit := 0, if level == 4 then USER_ENTRIES else ENTRIES;
    while i < limit
      invariant i <= limit && mach.Valid() && Freed(g, mach.g, k, i)
    {
      FreeSlot(mach, m, g, k, frame, level, i);
      i := i + 1;
    }
    if Below(k, k, limit) { BelowUnder(k, k, limit); }
    ghost var m2, g2 := mach.Now(), mach.g;
    TableFrame(m2, g2, k);
    ghost var g3 := g2.(at := g2.at - {k}, owner := g2.owner - {frame}, held := g2.held - {k}, torn := g2.torn - {k});
    FreedAll(m, g, g2, g3, k, frame, level);
    mach.Drop(frame);
    DropTableStep(m2, g2, k, mach.Now(), g3);
    mach.g := g3;
  }

  /** Space `d` is gone and the others are as they were. */
  ghost predicate OneSpaceLess(g: Shape, g': Shape, d: nat) {
    && g'.pins == g.pins && g'.zero == g.zero && g'.held == g.held - {Space(d)}
    && (forall q :: q in g'.at <==> q in g.at && RootOf(q) != d)
    && (forall q :: q in g'.at ==> g'.at[q] == g.at[q])
    && (forall q :: q in g'.leaves <==> q in g.leaves && RootOf(q) != d)
    && (forall q :: q in g'.leaves ==> g'.leaves[q] == g.leaves[q])
  }

  /** `free_page_tables`, called for a space that is not the current one. Memory contents stay. */
  method FreePageTables(mach: Machine, root: nat)
    requires mach.Idle() && Space(root) in mach.g.at && root != mach.pml4
    modifies mach`firstUsable, mach`g, mach.refs
    ensures mach.Idle() && OneSpaceLess(old(mach.g), mach.g, root)
  {
    ghost var g := mach.g;
    Basics(mach.Now(), g);
    TableFrame(mach.Now(), g, Space(root));
    HeldRoot(mach.Now(), g, root);
    FreeEntries(mach, Space(root), root, 4);
    forall q ensures Under(q, Space(root)) <==> RootOf(q) == root {
      RootUnder(q);
      if Under(q, Space(root)) { UnderDepth(q, Space(root)); }
    }
  }

  lemma HeldRoot(m: Mem, g: Shape, root: nat)
    requires Inv(m, g) && Settled(g) && Space(root) in g.at
    ensures Space(root) in g.held
    ensures forall q :: q in g.held && Under(q, Space(root)) ==> q == Space(root)
  {
    Open(m, g);
  }

  lemma ForkThenFreeShapes(g: Shape, g1: Shape, g2: Shape, s: nat, d: nat)
    requires Forked(g.leaves, g1.leaves, s, d) && OneSpaceMore(g.at, g1.at, d) && OneSpaceLess(g1, g2, d)
    ensures g2.at == g.at && g2.leaves.Keys == g.leaves.Keys
    ensures forall k :: k in g.leaves ==> g2.leaves[k] == if RootOf(k) == s then CowWord(g.leaves[k]) else g.leaves[k]
  {
    assert g2.at.Keys == g.at.Keys;
    assert g2.at == g.at;
  }

  /**
   Conservation: taking the copy down again restores every reference count, and the original keeps
   its tables and the frame of every page, with write permission at most traded for copy-on-write.
   */
  lemma ForkThenFree(m: Mem, g: Shape, g1: Shape, m2: Mem, g2: Shape, s: nat, d: nat)
    requires Inv(m, g) && Inv(m2, g2) && |m2.refs| == |m.refs| && g1.pins == g.pins
    requires Forked(g.leaves, g1.leaves, s, d) && OneSpaceMore(g.at, g1.at, d) && OneSpaceLess(g1, g2, d)
    ensures m2.refs == m.refs && g2.at == g.at && g2.leaves.Keys == g.leaves.Keys
    ensures forall k :: k in g.leaves ==> g2.leaves[k] == if RootOf(k) == s then CowWord(g.leaves[k]) else g.leaves[k]
  {
    ForkThenFreeShapes(g, g1, g2, s, d);
    assert LeafFrames(g2.leaves) == LeafFrames(g.leaves);
    SameNamesSameCounts(m, g, m2, g2);
  }

  /** The same on the machine: a fork whose child is discarded at once leaves all counts as they were. */
  method ForkAndDiscard(mach: Machine, root: nat) returns (ok: bool)
    requires mach.Idle() && Space(root) in mach.g.at
    modifies mach`firstUsable, mach`words, mach`g, mach.refs
    ensures ok ==> mach.Idle() && mach.refs[..] == old(mach.refs[..]) && mach.g.at == old(mach.g).at
    ensures ok ==> mach.g.leaves.Keys == old(mach.g).leaves.Keys && forall k :: k in mach.g.leaves ==>
      mach.g.leaves[k] == if RootOf(k) == root then CowWord(old(mach.g).leaves[k]) else old(mach.g).leaves[k]
    ensures !ok ==> mach.Exhausted()
  {
    var child := ClonePageTables(mach, root);
    if child.None? { return false; }
    ghost var m1, g1 := mach.Now(), mach.g;
    GrownTable(old(mach.Now()), old(mach.g), m1, g1, Space(mach.pml4));
    FreePageTables(mach, child.value);
    ForkThenFree(old(mach.Now()), old(mach.g), g1, mach.Now(), mach.g, root, child.value);
    ok := true;
  }
}
