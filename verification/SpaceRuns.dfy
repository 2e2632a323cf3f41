/**
 Whole runs of mapping, forking, faulting, storing, unmapping and discarding: every address
 space behaves as if it held private copies of its pages.
 */
module SpaceRuns {
  import opened Common
  import opened Places
  import opened PageTables
  import opened PageMachine
  import opened AddressSpaces
  import opened PageFork
  import opened UserBreak

  /** What one operation did, seen from user programs. */
  datatype Event =
    | Nothing
    | Copied(source: nat, copy: nat)
    | Dropped(root: nat)
    | Wrote(page: Place, index: nat, word: Word)
    | Mapped(root: nat, lo: nat, hi: nat, zeroed: bool, writable: bool, user: bool)
    | Unmapped(root: nat, lo: nat, hi: nat)

  /** Space `d` appears as a copy of space `s`. */
  ghost predicate CopiedView(v: View, v': View, s: nat, d: nat) {
    && (forall k :: k in v ==> RootOf(k) != d && k in v' && v'[k] == v[k])
    && (forall k :: k in v' && k !in v ==> RootOf(k) == d && Rebase(k, s) in v && v'[k] == v[Rebase(k, s)])
    && (forall k :: k in v && RootOf(k) == s ==> Rebase(k, d) in v')
  }

  ghost predicate Step(v: View, e: Event, v': View) {
    match e
    case Nothing => v' == v
    case Copied(s, d) => CopiedView(v, v', s, d)
    case Dropped(d) =>
      && (forall k :: k in v' <==> k in v && RootOf(k) != d)
      && (forall k :: k in v' ==> v'[k] == v[k])
    case Wrote(k, i, w) => k in v && i < |v[k].data| && v' == v[k := v[k].(data := v[k].data[i := w])]
    case Mapped(root, lo, hi, zeroed, writable, user) =>
      && (forall k :: k in v ==> k in v' && v'[k] == v[k] && !InRegion(k, root, lo, hi))
      && (forall k :: k in v' && k !in v ==> InRegion(k, root, lo, hi) && (zeroed ==> v'[k].data == Zeros()))
      && (forall k :: k in v' && k !in v ==> v'[k].writable == writable && v'[k].user == user)
      && (forall k :: InRegion(k, root, lo, hi) ==> k in v')
    case Unmapped(root, lo, hi) =>
      && (forall k :: k in v' <==> k in v && !InRegion(k, root, lo, hi))
      && (forall k :: k in v' ==> v'[k] == v[k])
  }

  /** The space an event is allowed to change. */
  predicate Touches(e: Event, root: nat) {
    match e
    case Nothing => false
    case Copied(_, d) => d == root
    case Dropped(d) => d == root
    case Wrote(k, _, _) => RootOf(k) == root
    case Mapped(r, _, _, _, _, _) => r == root
    case Unmapped(r, _, _) => r == root
  }

  ghost predicate SamePages(v: View, v': View, root: nat) {
    forall k :: RootOf(k) == root ==> (k in v <==> k in v') && (k in v ==> v'[k] == v[k])
  }

  ghost predicate Run(views: seq<View>, events: seq<Event>) {
    |views| == |events| + 1 && forall i :: 0 <= i < |events| ==> Step(views[i], events[i], views[i + 1])
  }

  lemma StepIsolation(v: View, e: Event, v': View, root: nat)
    requires Step(v, e, v') && !Touches(e, root)
    ensures SamePages(v, v', root)
  {
  }

  /** A space keeps every byte over any run that does not act on it, whatever its relatives do. */
  lemma {:induction false} RunIsolation(views: seq<View>, events: seq<Event>, root: nat)
    requires Run(views, events) && forall e :: e in events ==> !Touches(e, root)
    ensures SamePages(views[0], views[|events|], root)
    decreases |events|
  {
    if events != [] {
      var n := |events| - 1;
      RunIsolation(views[..n + 1], events[..n], root);
      assert views[..n + 1][n] == views[n];
      StepIsolation(views[n], events[n], views[n + 1], root);
    }
  }

  /** A fork is a snapshot: the child reads the parent's pages of the moment of the fork as long as it is not acted on itself. */
  lemma ForkIsSnapshot(views: seq<View>, events: seq<Event>, s: nat, d: nat, k: Place)
    requires Run(views, events) && events != [] && events[0] == Copied(s, d) && RootOf(k) == s
    requires forall e :: e in events[1..] ==> !Touches(e, d)
    ensures Rebase(k, d) in views[|events|] <==> k in views[0]
    ensures k in views[0] ==> views[|events|][Rebase(k, d)] == views[0][k]
  {
    RebaseFacts(k, d);
    assert Step(views[0], events[0], views[1]);
    assert Run(views[1..], events[1..]) by {
      forall i | 0 <= i < |events[1..]| ensures Step(views[1..][i], events[1..][i], views[1..][i + 1]) {
        assert Step(views[i + 1], events[i + 1], views[i + 2]);
      }
    }
    RunIsolation(views[1..], events[1..], d);
    assert views[1..][|events| - 1] == views[|events|];
  }

  // ---------------------------------------------------------------- the machine makes these steps

  lemma CopyStep(m: Mem, g: Shape, m': Mem, g': Shape, s: nat, d: nat)
    requires Inv(m, g) && Inv(m', g') && Grown(m, g, m', g') && Forked(g.leaves, g'.leaves, s, d)
    ensures CopiedView(ViewOf(m.words, g.leaves), ViewOf(m'.words, g'.leaves), s, d)
  {
    forall k | k in g.leaves ensures PageAt(m'.words, g'.leaves[k]) == PageAt(m.words, g.leaves[k]) {
      LeafFrame(m, g, k);
      GrownData(m, g, m', g', g.leaves[k].frame);
      SameContents(m.words, g.leaves[k].frame, m'.words, g.leaves[k].frame);
    }
  }

  lemma DropStep(m: Mem, g: Shape, m': Mem, g': Shape, d: nat)
    requires OneSpaceLess(g, g', d) && m'.words == m.words
    ensures Step(ViewOf(m.words, g.leaves), Dropped(d), ViewOf(m'.words, g'.leaves))
  {
  }

  /** `fork`'s part in memory. */
  method Fork(mach: Machine, s: nat) returns (d: Option<nat>)
    requires mach.Idle() && Space(s) in mach.g.at
    modifies mach`firstUsable, mach`words, mach`g, mach.refs
    ensures d.Some? ==> && mach.Idle() && Space(d.value) in mach.g.at && Space(d.value) !in old(mach.g).at
                        && (forall r :: Space(r) in old(mach.g).at ==> Space(r) in mach.g.at)
                        && Step(ViewOf(old(mach.words), old(mach.g).leaves), Copied(s, d.value), ViewOf(mach.words, mach.g.leaves))
    ensures d.None? ==> mach.Exhausted()
  {
    d := ClonePageTables(mach, s);
    if d.Some? {
      CopyStep(old(mach.Now()), old(mach.g), mach.Now(), mach.g, s, d.value);
    }
  }

  /** The end of a task's address space. */
  method Discard(mach: Machine, d: nat)
    requires mach.Idle() && Space(d) in mach.g.at && d != mach.pml4
    modifies mach`firstUsable, mach`g, mach.refs
    ensures mach.Idle() && forall r :: r != d && Space(r) in old(mach.g).at ==> Space(r) in mach.g.at
    ensures Step(ViewOf(mach.words, old(mach.g).leaves), Dropped(d), ViewOf(mach.words, mach.g.leaves))
  {
    FreePageTables(mach, d);
    DropStep(old(mach.Now()), old(mach.g), mach.Now(), mach.g, d);
  }

  /**
   A user store with the page-fault path of kernel/idt.c: on refusal `cow_handler` runs and the store
   is tried again. Whether it succeeds, and what it does, depends on the view alone.
   */
  method UserWrite(mach: Machine, addr: nat, i: nat, w: Word) returns (e: Option<Event>)
    requires mach.Idle() && addr / PAGE_SIZE < USER_PAGES && i < ENTRIES
    modifies mach`firstUsable, mach`words, mach`g, mach.refs
    ensures e.Some? ==>
      var before := ViewOf(old(mach.words), old(mach.g).leaves);
      var k := SlotOf(mach.pml4, GetPageEntry(addr));
      && mach.Idle() && mach.g.at == old(mach.g).at && Step(before, e.value, ViewOf(mach.words, mach.g.leaves))
      && e.value == if k in before && before[k].writable && before[k].user then Wrote(k, i, w) else Nothing
    ensures e.None? ==> mach.Exhausted()
  {
    ghost var k := SlotOf(mach.pml4, GetPageEntry(addr));
    var stored := Store(mach, addr, i, w);
    if !stored {
      var handled := CowHandler(mach, addr);
      if handled.None? { return None; }
      if handled.value { stored := Store(mach, addr, i, w); }
    }
    if stored { e := Some(Wrote(SlotOf(mach.pml4, GetPageEntry(addr)), i, w)); } else { e := Some(Nothing); }
  }

  lemma ZeroContents(m: Mem, g: Shape)
    requires Inv(m, g)
    ensures Contents(m.words, g.zero) == Zeros()
  {
    Open(m, g);
  }

  lemma MapStep(m: Mem, g: Shape, m': Mem, g': Shape, root: nat, lo: nat, hi: nat, flags: Word, backing: Backing)
    requires Inv(m, g) && Inv(m', g') && Grown(m, g, m', g') && lo <= hi
    requires RegionMapped(g, g'.leaves, root, lo, hi - lo, flags, backing)
    ensures Step(ViewOf(m.words, g.leaves), Mapped(root, lo, hi, backing.ZeroPage?, flags.rw || flags.cow, flags.user), ViewOf(m'.words, g'.leaves))
  {
    assert Spread(0);
    forall k | k in g.leaves ensures PageAt(m'.words, g'.leaves[k]) == PageAt(m.words, g.leaves[k]) {
      GrownView(m, g, m', g', k);
    }
    if backing.ZeroPage? {
      ZeroContents(m', g');
      GrownTable(m, g, m', g', Space(root));
    }
  }

  /** Mapping fresh or zero pages into the current space. */
  method MapPages(mach: Machine, vaddr: nat, size: nat, flags: Word, zeroed: bool) returns (s: Status, e: Event)
    requires mach.Idle() && PagesUp(vaddr + size) <= USER_PAGES
    modifies mach`firstUsable, mach`words, mach`g, mach.refs
    ensures s == Done ==> && mach.Idle() && (forall r :: Space(r) in old(mach.g).at ==> Space(r) in mach.g.at)
                          && e == Mapped(mach.pml4, vaddr / PAGE_SIZE, PagesUp(vaddr + size), zeroed, flags.rw || flags.cow, flags.user)
                          && Step(ViewOf(old(mach.words), old(mach.g).leaves), e, ViewOf(mach.words, mach.g.leaves))
    ensures s == OutOfMemory ==> mach.Exhausted()
    ensures s == AlreadyMapped ==> Overlaps(old(mach.g).leaves, mach.pml4, vaddr / PAGE_SIZE, PagesUp(vaddr + size))
  {
    e := Mapped(mach.pml4, vaddr / PAGE_SIZE, PagesUp(vaddr + size), zeroed, flags.rw || flags.cow, flags.user);
    ghost var m, g := mach.Now(), mach.g;
    var backing := if zeroed then ZeroPage else Fresh;
    s := mach.AllocRegion(vaddr, size, flags, backing);
    if s == Done {
      MapStep(m, g, mach.Now(), mach.g, mach.pml4, vaddr / PAGE_SIZE, PagesUp(vaddr + size), flags, backing);
      forall r | Space(r) in g.at ensures Space(r) in mach.g.at { GrownTable(m, g, mach.Now(), mach.g, Space(r)); }
    }
  }

  /** A page that was mapped writable for user programs, zero page or not, can be written. */
  method MapThenWrite(mach: Machine, vaddr: nat, size: nat, flags: Word, zeroed: bool, addr: nat, i: nat, w: Word) returns (s: Status, e: Option<Event>)
    requires mach.Idle() && PagesUp(vaddr + size) <= USER_PAGES && flags.rw && flags.user
    requires vaddr / PAGE_SIZE <= addr / PAGE_SIZE < PagesUp(vaddr + size) && i < ENTRIES
    modifies mach`firstUsable, mach`words, mach`g, mach.refs
    ensures s == Done && e.Some? ==> e.value == Wrote(SlotOf(mach.pml4, GetPageEntry(addr)), i, w)
    ensures e.None? ==> mach.Exhausted() || s == AlreadyMapped
  {
    SlotFacts(mach.pml4, addr);
    var mapped;
    s, mapped := MapPages(mach, vaddr, size, flags, zeroed);
    e := None;
    if s == Done {
      assert InRegion(SlotOf(mach.pml4, GetPageEntry(addr)), mach.pml4, vaddr / PAGE_SIZE, PagesUp(vaddr + size));
      e := UserWrite(mach, addr, i, w);
    }
  }

  lemma UnmapStep(m: Mem, g: Shape, m': Mem, g': Shape, root: nat, lo: nat, hi: nat)
    requires Inv(m, g) && RegionFreed(m, g, m', g', root, lo, hi)
    ensures Step(ViewOf(m.words, g.leaves), Unmapped(root, lo, hi), ViewOf(m'.words, g'.leaves))
  {
    RegionFreedView(m, g, m', g', root, lo, hi);
    forall k ensures k in g'.leaves <==> k in g.leaves && !InRegion(k, root, lo, hi) {
      RegionFreedLeaf(m, g, m', g', root, lo, hi, k);
    }
  }

  method UnmapPages(mach: Machine, vaddr: nat, size: nat) returns (e: Event)
    requires mach.Idle() && 0 < vaddr && PagesUp(vaddr + size) <= USER_PAGES
    modifies mach`firstUsable, mach`words, mach`g, mach.refs
    ensures mach.Idle() && forall r :: Space(r) in old(mach.g).at ==> Space(r) in mach.g.at
    ensures e == Unmapped(mach.pml4, vaddr / PAGE_SIZE, PagesUp(vaddr + size))
    ensures Step(ViewOf(old(mach.words), old(mach.g).leaves), e, ViewOf(mach.words, mach.g.leaves))
  {
    ghost var m, g := mach.Now(), mach.g;
    FreeRegion(mach, vaddr, size);
    e := Unmapped(mach.pml4, vaddr / PAGE_SIZE, PagesUp(vaddr + size));
    UnmapStep(m, g, mach.Now(), mach.g, mach.pml4, vaddr / PAGE_SIZE, PagesUp(vaddr + size));
    forall r | Space(r) in g.at ensures Space(r) in mach.g.at {
      RegionFreedLeaf(m, g, mach.Now(), mach.g, mach.pml4, vaddr / PAGE_SIZE, PagesUp(vaddr + size), Space(r));
    }
  }

  // ---------------------------------------------------------------- arbitrary programs of operations

  /** A kernel operation made on behalf of the space `root`. */
  datatype Op =
    | DoFork(root: nat)
    | DoDiscard(root: nat)
    | DoWrite(root: nat, addr: nat, index: nat, word: Word)
    | DoMap(root: nat, vaddr: nat, size: nat, flags: Word, zeroed: bool)
    | DoUnmap(root: nat, vaddr: nat, size: nat)

  /** The space an operation may change. A fork changes none of the spaces there are. */
  predicate ActsOn(op: Op, root: nat) {
    op.root == root && !op.DoFork?
  }

  /** A moment of a run: what programs see, the spaces there are, and the one whose tables are loaded. */
  datatype Moment = Moment(view: View, live: set<nat>, loaded: nat)

  /**
   The event that an operation has to bring about. An operation on a space that is not there or on
   addresses outside the user half does nothing, and the loaded space is not discarded.
   */
  ghost predicate Answers(s: Moment, op: Op, e: Event, s': Moment) {
    if op.root !in s.live then e == Nothing && s'.live == s.live && s'.loaded == s.loaded
    else match op
      case DoFork(root) =>
        && e.Copied? && e.source == root && e.copy !in s.live && (forall k :: k in s.view ==> RootOf(k) != e.copy)
        && s'.live == s.live + {e.copy} && s'.loaded == s.loaded
      case DoDiscard(root) =>
        && s'.loaded == s.loaded
        && if root == s.loaded then e == Nothing && s'.live == s.live else e == Dropped(root) && s'.live == s.live - {root}
      case DoWrite(root, addr, i, w) =>
        var k := SlotOf(root, GetPageEntry(addr));
        && s'.live == s.live
        && if addr / PAGE_SIZE < USER_PAGES && i < ENTRIES
           then s'.loaded == root && e == if k in s.view && s.view[k].writable && s.view[k].user then Wrote(k, i, w) else Nothing
           else s'.loaded == s.loaded && e == Nothing
      case DoMap(root, vaddr, size, flags, zeroed) =>
        && s'.live == s.live
        && if PagesUp(vaddr + size) <= USER_PAGES
           then s'.loaded == root && e == Mapped(root, vaddr / PAGE_SIZE, PagesUp(vaddr + size), zeroed, flags.rw || flags.cow, flags.user)
           else s'.loaded == s.loaded && e == Nothing
      case DoUnmap(root, vaddr, size) =>
        && s'.live == s.live
        && if 0 < vaddr && PagesUp(vaddr + size) <= USER_PAGES
           then s'.loaded == root && e == Unmapped(root, vaddr / PAGE_SIZE, PagesUp(vaddr + size))
           else s'.loaded == s.loaded && e == Nothing
  }

  /** Some page that is to be mapped is there already. */
  ghost predicate Clashes(s: Moment, op: Op) {
    op.DoMap? && exists k :: k in s.view && InRegion(k, op.root, op.vaddr / PAGE_SIZE, PagesUp(op.vaddr + op.size))
  }

  lemma ClashesIf(s: Moment, leaves: map<Place, Word>, op: Op)
    requires op.DoMap? && s.view.Keys == leaves.Keys && Overlaps(leaves, op.root, op.vaddr / PAGE_SIZE, PagesUp(op.vaddr + op.size))
    ensures Clashes(s, op)
  {
    var k :| k in leaves && InRegion(k, op.root, op.vaddr / PAGE_SIZE, PagesUp(op.vaddr + op.size));
    assert k in s.view.Keys;
  }

  ghost function Now(mach: Machine, live: set<nat>): Moment
    reads mach
  {
    Moment(ViewOf(mach.words, mach.g.leaves), live, mach.pml4)
  }

  /** Loads the operation's page tables and performs it. */
  method Perform(mach: Machine, live: set<nat>, op: Op) returns (ok: bool, live': set<nat>, e: Event)
    requires mach.Idle() && forall r :: r in live ==> Space(r) in mach.g.at
    modifies mach, mach.refs
    ensures ok ==> && mach.Idle() && (forall r :: r in live' ==> Space(r) in mach.g.at)
                   && Step(ViewOf(old(mach.words), old(mach.g).leaves), e, ViewOf(mach.words, mach.g.leaves))
                   && Answers(old(Now(mach, live)), op, e, Now(mach, live'))
    ensures !ok ==> mach.Exhausted() || Clashes(old(Now(mach, live)), op)
  {
    ok, live', e := true, live, Nothing;
    if op.root !in live { return; }
    match op {
      case DoFork(root) =>
        var d := Fork(mach, root);
        if d.None? { return false, live, e; }
        live', e := live + {d.value}, Copied(root, d.value);
      case DoDiscard(root) =>
        if root != mach.pml4 {
          Discard(mach, root);
          live', e := live - {root}, Dropped(root);
        }
      case DoWrite(root, addr, i, w) =>
        if addr / PAGE_SIZE < USER_PAGES && i < ENTRIES {
          mach.pml4 := root;
          var done := UserWrite(mach, addr, i, w);
          if done.None? { return false, live, e; }
          e := done.value;
        }
      case DoMap(root, vaddr, size, flags, zeroed) =>
        if PagesUp(vaddr + size) <= USER_PAGES {
          mach.pml4 := root;
          var s;
          s, e := MapPages(mach, vaddr, size, flags, zeroed);
          if s != Done {
            if s == AlreadyMapped { ClashesIf(old(Now(mach, live)), old(mach.g).leaves, op); }
            return false, live, e;
          }
        }
      case DoUnmap(root, vaddr, size) =>
        if 0 < vaddr && PagesUp(vaddr + size) <= USER_PAGES {
          mach.pml4 := root;
          e := UnmapPages(mach, vaddr, size);
        }
    }
  }

  /** A space that an operation does not act on stays, and is not touched. */
  lemma AnswerSpares(s: Moment, op: Op, e: Event, s': Moment, root: nat)
    requires Answers(s, op, e, s') && root in s.live && !ActsOn(op, root)
    ensures root in s'.live && !Touches(e, root)
  {
    if op.DoWrite? && op.addr / PAGE_SIZE < USER_PAGES { SlotFacts(op.root, op.addr); }
  }

  /** The events of a run are steps of the private-page machine, and the answers to the operations. */
  ghost predicate Happened(run: seq<Moment>, ops: seq<Op>, events: seq<Event>) {
    && |run| == |events| + 1 && |events| <= |ops|
    && forall i :: 0 <= i < |events| ==> Step(run[i].view, events[i], run[i + 1].view) && Answers(run[i], ops[i], events[i], run[i + 1])
  }

  lemma HappenedOne(run: seq<Moment>, ops: seq<Op>, events: seq<Event>, e: Event, s: Moment)
    requires Happened(run, ops, events) && |events| < |ops|
    requires Step(run[|events|].view, e, s.view) && Answers(run[|events|], ops[|events|], e, s)
    ensures Happened(run + [s], ops, events + [e])
  {
    var run', events' := run + [s], events + [e];
    forall i | 0 <= i < |events'|
      ensures Step(run'[i].view, events'[i], run'[i + 1].view) && Answers(run'[i], ops[i], events'[i], run'[i + 1])
    {
      assert run'[i] == run[i] && (i < |events| ==> run'[i + 1] == run[i + 1] && events'[i] == events[i]);
    }
  }

  ghost function Views(run: seq<Moment>): (views: seq<View>)
    ensures |views| == |run| && forall i :: 0 <= i < |run| ==> views[i] == run[i].view
  {
    seq(|run|, i requires 0 <= i < |run| => run[i].view)
  }

  /** Over a whole run: a space that no operation acts on keeps every page. */
  lemma {:induction false} RunSpares(run: seq<Moment>, ops: seq<Op>, events: seq<Event>, root: nat)
    requires Happened(run, ops, events) && root in run[0].live && forall op :: op in ops ==> !ActsOn(op, root)
    ensures root in run[|events|].live && SamePages(run[0].view, run[|events|].view, root)
    decreases |events|
  {
    if events != [] {
      var n := |events| - 1;
      RunSpares(run[..n + 1], ops, events[..n], root);
      assert run[..n + 1][n] == run[n];
      AnswerSpares(run[n], ops[n], events[n], run[n + 1], root);
      StepIsolation(run[n].view, events[n], run[n + 1].view, root);
    }
  }

  /**
   Any sequence of operations on any set of spaces, short of a panic, is a run of the private-page machine
   in which each operation brings about its event; and a space that no operation acts on keeps every page,
   shared frames or not.
   */
  method Execute(mach: Machine, live: set<nat>, ops: seq<Op>) returns (ok: bool, ghost run: seq<Moment>, ghost events: seq<Event>)
    requires mach.Idle() && forall r :: r in live ==> Space(r) in mach.g.at
    modifies mach, mach.refs
    ensures Happened(run, ops, events) && run[0] == old(Now(mach, live))
    ensures ok ==> && mach.Idle() && |events| == |ops| && run[|ops|] == Now(mach, run[|ops|].live)
                   && Run(Views(run), events)
                   && forall r :: r in live && (forall op :: op in ops ==> !ActsOn(op, r)) ==>
                                    SamePages(run[0].view, run[|ops|].view, r)
    ensures !ok ==> |events| < |ops| && (Clashes(run[|events|], ops[|events|]) || forall f :: 0 <= f < mach.refs.Length ==> mach.refs[f] > 0)
  {
    run, events := [Now(mach, live)], [];
    var now, n := live, 0;
    while n < |ops|
      invariant n <= |ops| && mach.Idle() && forall r :: r in now ==> Space(r) in mach.g.at
      invariant Happened(run, ops, events) && |events| == n && run[0] == old(Now(mach, live)) && run[n] == Now(mach, now)
    {
      var e;
      ok, now, e := Perform(mach, now, ops[n]);
      if !ok {
        if mach.Exhausted() { mach.NoneFree(); }
        return;
      }
      HappenedOne(run, ops, events, e, Now(mach, now));
      run, events := run + [Now(mach, now)], events + [e];
      n := n + 1;
    }
    ok := true;
    forall r | r in live && (forall op :: op in ops ==> !ActsOn(op, r)) ensures SamePages(run[0].view, run[|ops|].view, r) {
      RunSpares(run, ops, events, r);
    }
  }
}
