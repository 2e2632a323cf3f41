/**
 File descriptors (kernel/usermode/fd.c) under fork, spawn, execve and exit: reference counts,
 closing, and the life of pipes.
 */
module Descriptors {

  import opened Common

  const MAX_FDS: nat := 1024
  const MAX_FILES: nat := 4096

  /** An entry of a descriptor table. */
  datatype Slot = Slot(desc: Option<nat>, cloexec: bool)

  const EMPTY := Slot(None, false)

  /** What a description stands for; `readEnd` tells the O_RDONLY end of a pipe from the O_WRONLY one. */
  datatype Kind = File(handle: nat) | Socket(handle: nat) | PipeEnd(pipe: nat, readEnd: bool)

  datatype Desc = Desc(kind: Kind, refcount: nat)

  /** `reader_count` and `writer_count`. */
  datatype Pipe = Pipe(readers: nat, writers: nat)

  type Table = seq<Slot>

  datatype Error = EBADF | EMFILE | ENFILE | EINVAL | EIO

  datatype Result = Ok(fd: nat) | Err(error: Error)

  // ---------------------------------------------------------------- counting

  /** The table entries that name description `d`. */
  function Users(tables: map<nat, Table>, d: nat): set<(nat, nat)> {
    set t, fd | t in tables && 0 <= fd < |tables[t]| && tables[t][fd].desc == Some(d) :: (t, fd)
  }

  function Count(tables: map<nat, Table>, d: nat): nat {
    |Users(tables, d)|
  }

  /** `s` takes the place of the entry at `(t, fd)`. */
  function SetSlot(tables: map<nat, Table>, t: nat, fd: nat, s: Slot): map<nat, Table>
    requires t in tables && fd < |tables[t]|
  {
    tables[t := tables[t][fd := s]]
  }

  lemma SetSlotCount(tables: map<nat, Table>, t: nat, fd: nat, s: Slot, d: nat)
    requires t in tables && fd < |tables[t]|
    ensures Count(SetSlot(tables, t, fd, s), d) + (if tables[t][fd].desc == Some(d) then 1 else 0)
            == Count(tables, d) + (if s.desc == Some(d) then 1 else 0)
  {
    var tables' := SetSlot(tables, t, fd, s);
    forall u: nat, f: nat
      ensures (u, f) in Users(tables', d) <==> if u == t && f == fd then s.desc == Some(d) else (u, f) in Users(tables, d)
    {
      assert u in tables' <==> u in tables;
      if u in tables && f < |tables[u]| && !(u == t && f == fd) { assert tables'[u][f] == tables[u][f]; }
    }
    var rest := Users(tables, d) - {(t, fd)};
    assert Users(tables, d) == if tables[t][fd].desc == Some(d) then rest + {(t, fd)} else rest;
    assert Users(tables', d) == if s.desc == Some(d) then rest + {(t, fd)} else rest;
  }

  /** Two entries of one table. */
  lemma SetSlots(tables: map<nat, Table>, t: nat, a: nat, x: Slot, b: nat, y: Slot)
    requires t in tables && a < |tables[t]| && b < |tables[t]|
    ensures SetSlot(SetSlot(tables, t, a, x), t, b, y) == tables[t := tables[t][a := x][b := y]]
  {
  }

  lemma SetSlotTwice(tables: map<nat, Table>, t: nat, fd: nat, s: Slot)
    requires t in tables && fd < |tables[t]|
    ensures SetSlot(SetSlot(tables, t, fd, EMPTY), t, fd, s) == SetSlot(tables, t, fd, s)
  {
    assert tables[t][fd := EMPTY][fd := s] == tables[t][fd := s];
  }

  lemma CountPositive(tables: map<nat, Table>, t: nat, fd: nat, d: nat)
    requires t in tables && fd < |tables[t]| && tables[t][fd].desc == Some(d)
    ensures Count(tables, d) >= 1
  {
    assert (t, fd) in Users(tables, d);
  }

  /** A task whose table names nothing does not count. */
  lemma EmptyTableCount(tables: map<nat, Table>, t: nat, table: Table, d: nat)
    requires (forall s :: s in table ==> s.desc.None?) && (t in tables ==> forall s :: s in tables[t] ==> s.desc.None?)
    ensures Count(tables[t := table], d) == Count(tables, d)
    ensures Count(tables - {t}, d) == Count(tables, d)
  {
    assert Users(tables[t := table], d) == Users(tables, d);
    assert Users(tables - {t}, d) == Users(tables, d);
  }

  predicate IsEnd(v: Desc, p: nat, readEnd: bool) {
    v.refcount > 0 && v.kind == PipeEnd(p, readEnd)
  }

  /** The live ends of a pipe of one direction. */
  function Ends(descs: seq<Desc>, p: nat, readEnd: bool): set<nat> {
    set d: nat | d < |descs| && IsEnd(descs[d], p, readEnd)
  }

  lemma EndsChange(descs: seq<Desc>, d: nat, v: Desc, p: nat, readEnd: bool)
    requires d < |descs|
    ensures |Ends(descs[d := v], p, readEnd)| + (if IsEnd(descs[d], p, readEnd) then 1 else 0)
            == |Ends(descs, p, readEnd)| + (if IsEnd(v, p, readEnd) then 1 else 0)
  {
    var before, after := Ends(descs, p, readEnd), Ends(descs[d := v], p, readEnd);
    forall e: nat | e != d ensures e in before <==> e in after {
      if e < |descs| { assert descs[d := v][e] == descs[e]; }
    }
    assert descs[d := v][d] == v;
    SizesApart(before, after, d);
  }

  lemma SizesApart(a: set<nat>, b: set<nat>, d: nat)
    requires forall e: nat :: e != d ==> (e in a <==> e in b)
    ensures |b| + (if d in a then 1 else 0) == |a| + (if d in b then 1 else 0)
  {
    var rest := a - {d};
    assert a == if d in a then rest + {d} else rest;
    assert b == if d in b then rest + {d} else rest;
  }

  // ---------------------------------------------------------------- invariant

  /** Everything the kernel keeps about open files, with what has been closed and freed so far. */
  datatype State = State(tables: map<nat, Table>, descs: seq<Desc>, pipes: map<nat, Pipe>,
                         made: set<nat>, freed: multiset<nat>,
                         handles: set<nat>, closed: multiset<nat>, leaked: set<nat>)

  ghost predicate Shaped(s: State) {
    && |s.descs| == MAX_FILES
    && (forall t :: t in s.tables ==> |s.tables[t]| == MAX_FDS)
    && (forall t, fd :: t in s.tables && 0 <= fd < MAX_FDS && s.tables[t][fd].desc.Some? ==> s.tables[t][fd].desc.value < MAX_FILES)
  }

  /** A description's reference count is the number of table entries that name it. */
  ghost predicate Exact(s: State) {
    forall d: nat :: d < |s.descs| ==> s.descs[d].refcount == Count(s.tables, d)
  }

  /** A pipe made is there while an open description is one of its ends, and counts them; if it is not there it was freed once. */
  ghost predicate PipesExact(s: State) {
    && (forall p :: p in s.pipes ==> s.pipes[p].readers == |Ends(s.descs, p, true)| && s.pipes[p].writers == |Ends(s.descs, p, false)|
                                     && s.pipes[p].readers + s.pipes[p].writers > 0)
    && (forall d: nat :: d < |s.descs| && s.descs[d].refcount > 0 && s.descs[d].kind.PipeEnd? ==> s.descs[d].kind.pipe in s.pipes)
    && (forall p :: p in s.made ==> s.freed[p] == if p in s.pipes then 0 else 1)
    && (forall p :: p in s.pipes || p in s.freed ==> p in s.made)
  }

  predicate LiveHandle(descs: seq<Desc>, d: nat, h: nat) {
    d < |descs| && descs[d].refcount > 0 && !descs[d].kind.PipeEnd? && descs[d].kind.handle == h
  }

  /** Every handle opened is in one open description, or was closed once, or was lost by a failed open. */
  ghost predicate HandlesExact(s: State) {
    && (forall d: nat, e: nat, h :: LiveHandle(s.descs, d, h) && LiveHandle(s.descs, e, h) ==> d == e)
    && (forall d: nat, h :: LiveHandle(s.descs, d, h) ==> h in s.handles && h !in s.closed && h !in s.leaked)
    && s.leaked <= s.handles
    && (forall h :: h in s.closed ==> s.closed[h] == 1 && h in s.handles && h !in s.leaked)
    && (forall h :: h in s.handles ==> h in s.closed || h in s.leaked || exists d: nat :: LiveHandle(s.descs, d, h))
  }

  ghost predicate Consistent(s: State) {
    Shaped(s) && Exact(s) && PipesExact(s) && HandlesExact(s)
  }

  /** The invariant. The quantifier keeps the solver from opening it except where `Gate` is mentioned. */
  ghost predicate Inv(s: State) {
    forall z {:trigger Gate(z)} :: Gate(z) ==> Consistent(s)
  }

  // ---------------------------------------------------------------- elementary steps

  /** `close_file_description` on a description whose count has just reached zero. */
  function CloseKind(s: State, kind: Kind): State {
    match kind
    case File(h) => s.(closed := s.closed + multiset{h})
    case Socket(h) => s.(closed := s.closed + multiset{h})
    case PipeEnd(p, readEnd) =>
      if p !in s.pipes then s else
        var ends := s.pipes[p];
        var left := if readEnd then ends.(readers := if ends.readers > 0 then ends.readers - 1 else 0)
                    else ends.(writers := if ends.writers > 0 then ends.writers - 1 else 0);
        if left.readers == 0 && left.writers == 0 then s.(pipes := s.pipes - {p}, freed := s.freed + multiset{p})
        else s.(pipes := s.pipes[p := left])
  }

  /** One reference to `d` less, with the close that follows the last. */
  function Unref(s: State, d: nat): State
    requires d < |s.descs| && s.descs[d].refcount > 0
  {
    var n := s.descs[d].refcount - 1;
    var s' := s.(descs := s.descs[d := s.descs[d].(refcount := n)]);
    if n == 0 then CloseKind(s', s.descs[d].kind) else s'
  }

  /** The entry names a description, and is counted by it. */
  predicate Counted(s: State, t: nat, fd: nat)
    requires t in s.tables && fd < |s.tables[t]|
  {
    var d := s.tables[t][fd].desc;
    d.Some? && d.value < |s.descs| && s.descs[d.value].refcount > 0
  }

  /** What `fd_close` does to an entry. */
  function DropSlot(s: State, t: nat, fd: nat): State
    requires t in s.tables && fd < |s.tables[t]|
  {
    if !Counted(s, t, fd) then s
    else Unref(s, s.tables[t][fd].desc.value).(tables := SetSlot(s.tables, t, fd, EMPTY))
  }

  /** What `dup`, `dup2` and the copying loop of `fork` do to an empty entry. */
  function ShareSlot(s: State, t: nat, fd: nat, slot: Slot): State
    requires t in s.tables && fd < |s.tables[t]| && slot.desc.Some?
  {
    var d := slot.desc.value;
    if d >= |s.descs| then s else s.(tables := SetSlot(s.tables, t, fd, slot), descs := s.descs[d := s.descs[d].(refcount := s.descs[d].refcount + 1)])
  }

  lemma UserCounted(s: State, t: nat, fd: nat)
    requires Shaped(s) && Exact(s) && t in s.tables && fd < MAX_FDS && s.tables[t][fd].desc.Some?
    ensures Counted(s, t, fd)
  {
    CountPositive(s.tables, t, fd, s.tables[t][fd].desc.value);
  }

  lemma DropSlotExact(s: State, t: nat, fd: nat)
    requires Shaped(s) && Exact(s) && t in s.tables && fd < MAX_FDS && s.tables[t][fd].desc.Some?
    requires Counted(s, t, fd)
    ensures Shaped(DropSlot(s, t, fd)) && Exact(DropSlot(s, t, fd))
  {
    forall d: nat | d < |s.descs| ensures DropSlot(s, t, fd).descs[d].refcount == Count(DropSlot(s, t, fd).tables, d) {
      SetSlotCount(s.tables, t, fd, EMPTY, d);
    }
  }

  /** Closing the last reference to a pipe end: its counter goes down, and the pipe goes with its last end. */
  lemma ClosePipeEnd(s: State, d: nat, s': State)
    requires PipesExact(s) && d < |s.descs| && s.descs[d].refcount == 1 && s.descs[d].kind.PipeEnd? && s' == Unref(s, d)
    ensures PipesExact(s')
  {
    EndsShrink(s.descs, d, s'.descs);
    EndsPipes(s, s.descs[d].kind.pipe, s');
  }

  lemma EndsShrink(descs: seq<Desc>, d: nat, descs': seq<Desc>)
    requires d < |descs| && descs[d].refcount > 0 && descs[d].kind.PipeEnd? && descs' == descs[d := descs[d].(refcount := 0)]
    ensures forall q, r :: |Ends(descs', q, r)| + (if descs[d].kind == PipeEnd(q, r) then 1 else 0) == |Ends(descs, q, r)|
  {
    forall q, r ensures |Ends(descs', q, r)| + (if descs[d].kind == PipeEnd(q, r) then 1 else 0) == |Ends(descs, q, r)| {
      EndsChange(descs, d, descs'[d], q, r);
    }
  }

  lemma EndsPipes(s: State, p: nat, s': State)
    requires PipesExact(s) && |s'.descs| == |s.descs| && p in s.pipes
    requires forall e :: 0 <= e < |s.descs| && s'.descs[e].refcount > 0 ==> s'.descs[e].kind == s.descs[e].kind && s.descs[e].refcount > 0
    requires forall q :: q in s.pipes && q != p ==> q in s'.pipes
    requires p in s'.pipes || (Ends(s'.descs, p, true) == {} && Ends(s'.descs, p, false) == {})
    ensures forall e: nat :: e < |s'.descs| && s'.descs[e].refcount > 0 && s'.descs[e].kind.PipeEnd? ==> s'.descs[e].kind.pipe in s'.pipes
  {
    forall e: nat | e < |s'.descs| && s'.descs[e].refcount > 0 && s'.descs[e].kind.PipeEnd? ensures s'.descs[e].kind.pipe in s'.pipes {
      if s'.descs[e].kind.pipe == p {
        assert e in Ends(s'.descs, p, s'.descs[e].kind.readEnd);
      }
    }
  }

  lemma OtherPipes(s: State, d: nat, v: Desc, s': State)
    requires PipesExact(s) && d < |s.descs| && s'.descs == s.descs[d := v] && s'.pipes == s.pipes && s'.made == s.made && s'.freed == s.freed
    requires (!(s.descs[d].kind.PipeEnd? && s.descs[d].refcount > 0) && !(v.kind.PipeEnd? && v.refcount > 0))
             || (v.kind == s.descs[d].kind && v.refcount > 0 && s.descs[d].refcount > 0)
    ensures PipesExact(s')
  {
    forall q, r ensures Ends(s'.descs, q, r) == Ends(s.descs, q, r) {
    }
  }

  lemma UnrefPipes(s: State, d: nat)
    requires PipesExact(s) && d < |s.descs| && s.descs[d].refcount > 0
    ensures PipesExact(Unref(s, d))
  {
    var s' := Unref(s, d);
    if s.descs[d].refcount == 1 && s.descs[d].kind.PipeEnd? {
      ClosePipeEnd(s, d, s');
    } else {
      OtherPipes(s, d, s.descs[d].(refcount := s.descs[d].refcount - 1), s');
    }
  }

  lemma UnrefHandles(s: State, d: nat)
    requires HandlesExact(s) && d < |s.descs| && s.descs[d].refcount > 0
    ensures HandlesExact(Unref(s, d))
  {
    var s' := Unref(s, d);
    var last := s.descs[d].refcount == 1 && !s.descs[d].kind.PipeEnd?;
    if last { assert LiveHandle(s.descs, d, s.descs[d].kind.handle); }
    forall e: nat, h ensures LiveHandle(s'.descs, e, h) <==> LiveHandle(s.descs, e, h) && !(e == d && last) {
    }
    forall h | h in s'.handles ensures h in s'.closed || h in s'.leaked || exists e: nat :: LiveHandle(s'.descs, e, h) {
      if h !in s.closed && h !in s.leaked {
        var e: nat :| LiveHandle(s.descs, e, h);
        assert LiveHandle(s'.descs, e, h) || (e == d && last);
      }
    }
  }

  lemma HandlesElsewhere(s: State, s': State)
    requires HandlesExact(s) && s'.descs == s.descs && s'.handles == s.handles && s'.closed == s.closed && s'.leaked == s.leaked
    ensures HandlesExact(s')
  {
  }

  lemma PipesElsewhere(s: State, s': State)
    requires PipesExact(s) && s'.descs == s.descs && s'.pipes == s.pipes && s'.made == s.made && s'.freed == s.freed
    ensures PipesExact(s')
  {
  }

  lemma InvIf(s: State)
    requires Shaped(s) && Exact(s) && PipesExact(s) && HandlesExact(s)
    ensures Inv(s)
  {
  }

  lemma Apart(s: State)
    requires Inv(s)
    ensures Shaped(s) && Exact(s) && PipesExact(s) && HandlesExact(s)
  {
    assert Gate(0);
  }

  lemma DropSlotInv(s: State, t: nat, fd: nat)
    requires Inv(s) && t in s.tables && |s.tables[t]| == MAX_FDS && fd < MAX_FDS
    ensures s.tables[t][fd].desc.Some? ==> Counted(s, t, fd)
    ensures Inv(DropSlot(s, t, fd))
  {
    if s.tables[t][fd].desc.Some? {
      Apart(s);
      UserCounted(s, t, fd);
      DropSlotExact(s, t, fd);
      var d, after := s.tables[t][fd].desc.value, DropSlot(s, t, fd);
      UnrefPipes(s, d);
      UnrefHandles(s, d);
      PipesElsewhere(Unref(s, d), after);
      HandlesElsewhere(Unref(s, d), after);
      InvIf(after);
    }
  }

  lemma ShareSlotInv(s: State, t: nat, fd: nat, slot: Slot)
    requires Inv(s) && t in s.tables && |s.tables[t]| == MAX_FDS && fd < MAX_FDS && s.tables[t][fd].desc.None?
    requires slot.desc.Some? && slot.desc.value < MAX_FILES == |s.descs| && s.descs[slot.desc.value].refcount > 0
    ensures Inv(ShareSlot(s, t, fd, slot))
  {
    assert Gate(0);
    var d, s' := slot.desc.value, ShareSlot(s, t, fd, slot);
    forall e: nat | e < |s.descs| ensures s'.descs[e].refcount == Count(s'.tables, e) {
      SetSlotCount(s.tables, t, fd, slot, e);
    }
    OtherPipes(s, d, s'.descs[d], s');
    forall e: nat, h ensures LiveHandle(s'.descs, e, h) <==> LiveHandle(s.descs, e, h) {
    }
    SameHandles(s, s');
  }

  lemma SameHandles(s: State, s': State)
    requires HandlesExact(s) && s'.handles == s.handles && s'.closed == s.closed && s'.leaked == s.leaked
    requires forall e: nat, h :: LiveHandle(s'.descs, e, h) <==> LiveHandle(s.descs, e, h)
    ensures HandlesExact(s')
  {
    forall h | h in s'.handles ensures h in s'.closed || h in s'.leaked || exists e: nat :: LiveHandle(s'.descs, e, h) {
      if h !in s.closed && h !in s.leaked {
        var e: nat :| LiveHandle(s.descs, e, h);
        assert LiveHandle(s'.descs, e, h);
      }
    }
  }

  /** The successful end of `fd_open` and `fd_socket`: an unused description and an unused entry. */
  function OpenSlot(s: State, t: nat, fd: nat, d: nat, kind: Kind, cloexec: bool): State
    requires t in s.tables && fd < |s.tables[t]| && d < |s.descs| && !kind.PipeEnd?
  {
    s.(tables := SetSlot(s.tables, t, fd, Slot(Some(d), cloexec)), descs := s.descs[d := Desc(kind, 1)],
       handles := s.handles + {kind.handle})
  }

  lemma OpenSlotInv(s: State, t: nat, fd: nat, d: nat, kind: Kind, cloexec: bool)
    requires Inv(s) && t in s.tables && |s.tables[t]| == MAX_FDS && fd < MAX_FDS && s.tables[t][fd].desc.None?
    requires d < MAX_FILES == |s.descs| && s.descs[d].refcount == 0 && !kind.PipeEnd? && kind.handle !in s.handles
    ensures Inv(OpenSlot(s, t, fd, d, kind, cloexec))
  {
    assert Gate(0);
    var s' := OpenSlot(s, t, fd, d, kind, cloexec);
    forall e: nat | e < |s.descs| ensures s'.descs[e].refcount == Count(s'.tables, e) {
      SetSlotCount(s.tables, t, fd, Slot(Some(d), cloexec), e);
    }
    OtherPipes(s, d, s'.descs[d], s');
    forall e: nat, h ensures LiveHandle(s'.descs, e, h) <==> LiveHandle(s.descs, e, h) || (e == d && h == kind.handle) {
    }
    forall h | h in s'.handles ensures h in s'.closed || h in s'.leaked || exists e: nat :: LiveHandle(s'.descs, e, h) {
      if h == kind.handle {
        assert LiveHandle(s'.descs, d, h);
      } else if h !in s.closed && h !in s.leaked {
        var e: nat :| LiveHandle(s.descs, e, h);
        assert LiveHandle(s'.descs, e, h);
      }
    }
  }

  /** The failure of the O_TRUNC truncation in `fd_open`: the file was opened and nobody will close it. */
  function Leaked(s: State, h: nat): State {
    s.(handles := s.handles + {h}, leaked := s.leaked + {h})
  }

  lemma LeakInv(s: State, h: nat)
    requires Inv(s) && h !in s.handles
    ensures Inv(Leaked(s, h))
  {
  }

  /** `pipe`: two unused descriptions, two unused entries, one new pipe with a reader and a writer. */
  function OpenPipe(s: State, t: nat, rfd: nat, wfd: nat, r: nat, w: nat, p: nat): State
    requires t in s.tables && rfd < |s.tables[t]| && wfd < |s.tables[t]| && r < |s.descs| && w < |s.descs|
  {
    s.(tables := SetSlot(SetSlot(s.tables, t, rfd, Slot(Some(r), false)), t, wfd, Slot(Some(w), false)),
       descs := s.descs[r := Desc(PipeEnd(p, true), 1)][w := Desc(PipeEnd(p, false), 1)],
       pipes := s.pipes[p := Pipe(1, 1)], made := s.made + {p})
  }

  lemma OpenPipeExact(s: State, t: nat, rfd: nat, wfd: nat, r: nat, w: nat, p: nat)
    requires Shaped(s) && Exact(s) && t in s.tables && rfd < wfd < MAX_FDS
    requires s.tables[t][rfd].desc.None? && s.tables[t][wfd].desc.None?
    requires r < w < MAX_FILES && s.descs[r].refcount == 0 && s.descs[w].refcount == 0
    ensures Shaped(OpenPipe(s, t, rfd, wfd, r, w, p)) && Exact(OpenPipe(s, t, rfd, wfd, r, w, p))
  {
    var s' := OpenPipe(s, t, rfd, wfd, r, w, p);
    var mid := SetSlot(s.tables, t, rfd, Slot(Some(r), false));
    forall e: nat | e < |s.descs| ensures s'.descs[e].refcount == Count(s'.tables, e) {
      SetSlotCount(s.tables, t, rfd, Slot(Some(r), false), e);
      SetSlotCount(mid, t, wfd, Slot(Some(w), false), e);
    }
  }

  lemma OpenPipePipes(s: State, descs: seq<Desc>, r: nat, w: nat, p: nat)
    requires PipesExact(s) && r < w < |s.descs| && s.descs[r].refcount == 0 && s.descs[w].refcount == 0
    requires p !in s.made
    requires descs == s.descs[r := Desc(PipeEnd(p, true), 1)][w := Desc(PipeEnd(p, false), 1)]
    ensures PipesExact(s.(descs := descs, pipes := s.pipes[p := Pipe(1, 1)], made := s.made + {p}))
  {
    forall q, e ensures Ends(descs, q, e) == if q == p then (if e then {r} else {w}) else Ends(s.descs, q, e) {
      if q == p {
        assert forall d: nat :: d < |s.descs| && s.descs[d].refcount > 0 && s.descs[d].kind.PipeEnd? ==> s.descs[d].kind.pipe != p;
      }
    }
  }

  lemma OpenPipeInv(s: State, t: nat, rfd: nat, wfd: nat, r: nat, w: nat, p: nat)
    requires Inv(s) && t in s.tables && |s.tables[t]| == MAX_FDS && rfd < wfd < MAX_FDS && s.tables[t][rfd].desc.None? && s.tables[t][wfd].desc.None?
    requires r < w < MAX_FILES == |s.descs| && s.descs[r].refcount == 0 && s.descs[w].refcount == 0 && p !in s.made
    ensures Inv(OpenPipe(s, t, rfd, wfd, r, w, p))
  {
    assert Gate(0);
    var s' := OpenPipe(s, t, rfd, wfd, r, w, p);
    OpenPipeExact(s, t, rfd, wfd, r, w, p);
    OpenPipePipes(s, s'.descs, r, w, p);
    forall e: nat, h ensures LiveHandle(s'.descs, e, h) <==> LiveHandle(s.descs, e, h) {
    }
    SameHandles(s, s');
  }

  predicate Unused(table: Table) {
    |table| == MAX_FDS && forall i :: 0 <= i < MAX_FDS ==> table[i].desc.None?
  }

  /** A task comes with an empty table ... */
  lemma TaskAddedInv(s: State, t: nat, table: Table)
    requires Inv(s) && Unused(table) && (t in s.tables ==> Unused(s.tables[t]))
    ensures Inv(s.(tables := s.tables[t := table]))
  {
    assert Gate(0);
    forall d: nat | d < |s.descs| ensures Count(s.tables[t := table], d) == Count(s.tables, d) {
      EmptyTableCount(s.tables, t, table, d);
    }
    HandlesElsewhere(s, s.(tables := s.tables[t := table]));
  }

  /** ... and goes with one. */
  lemma TaskRemovedInv(s: State, t: nat)
    requires Inv(s) && t in s.tables && Unused(s.tables[t])
    ensures Inv(s.(tables := s.tables - {t}))
  {
    assert Gate(0);
    forall d: nat | d < |s.descs| ensures Count(s.tables - {t}, d) == Count(s.tables, d) {
      EmptyTableCount(s.tables, t, s.tables[t], d);
    }
    HandlesElsewhere(s, s.(tables := s.tables - {t}));
  }

  // ---------------------------------------------------------------- the kernel's tables

  /** Lowest unused entry at or after `from`. */
  predicate IsLowestFree(table: Table, from: nat, i: nat) {
    from <= i < |table| && table[i].desc.None? && forall j :: from <= j < i ==> table[j].desc.Some?
  }

  /** What has been handed out, closed, lost or freed stays so. */
  ghost predicate Larger(s: State, s': State) {
    s.made <= s'.made && s.handles <= s'.handles && s.leaked <= s'.leaked && s.closed <= s'.closed && s.freed <= s'.freed
  }

  ghost predicate Grows(s: State, s': State) {
    forall z {:trigger Gate(z)} :: Gate(z) ==> Larger(s, s')
  }

  lemma GrowsTrans(a: State, b: State, c: State)
    requires Grows(a, b) && Grows(b, c)
    ensures Grows(a, c)
  {
    assert Gate(0);
  }

  lemma AllGrow(states: seq<State>, b: State, c: State)
    requires Grows(b, c) && forall i :: 0 <= i < |states| ==> Grows(states[i], b)
    ensures Grows(c, c) && forall i :: 0 <= i < |states| ==> Grows(states[i], c)
  {
    forall i | 0 <= i < |states| ensures Grows(states[i], c) { GrowsTrans(states[i], b, c); }
  }

  lemma GrowsIf(s: State, s': State)
    requires Larger(s, s')
    ensures Grows(s, s')
  {
  }

  /** Nothing is handed out or lost, and every description keeps its meaning. */
  ghost predicate OnlyClosed(s: State, s': State) {
    && s'.made == s.made && s'.handles == s.handles && s'.leaked == s.leaked && s.closed <= s'.closed && s.freed <= s'.freed
    && |s'.descs| == |s.descs| && forall d :: 0 <= d < |s.descs| ==> s'.descs[d].kind == s.descs[d].kind
  }

  ghost predicate Closes(s: State, s': State) {
    forall z {:trigger Gate(z)} :: Gate(z) ==> OnlyClosed(s, s')
  }

  lemma ClosesTrans(a: State, b: State, c: State)
    requires Closes(a, b) && Closes(b, c)
    ensures Closes(a, c)
  {
    assert Gate(0);
  }

  lemma ClosesIf(s: State, s': State)
    requires OnlyClosed(s, s')
    ensures Closes(s, s')
  {
  }

  lemma ClosesGrows(s: State, s': State)
    requires Closes(s, s')
    ensures Grows(s, s')
  {
    assert Gate(0);
  }

  lemma DropCloses(s: State, t: nat, fd: nat)
    requires t in s.tables && fd < |s.tables[t]|
    ensures Closes(s, DropSlot(s, t, fd))
  {
  }

  predicate IsOpen(table: Table, fd: int) {
    0 <= fd < |table| && table[fd].desc.Some?
  }

  /** Some entry from `from` on is unused. */
  predicate FreeFrom(table: Table, from: nat) {
    exists i :: from <= i < |table| && table[i].desc.None?
  }

  predicate TwoFree(table: Table) {
    exists i, j :: 0 <= i < j < |table| && table[i].desc.None? && table[j].desc.None?
  }

  predicate FreeDesc(descs: seq<Desc>) {
    exists i :: 0 <= i < |descs| && descs[i].refcount == 0
  }

  predicate TwoFreeDescs(descs: seq<Desc>) {
    exists i, j :: 0 <= i < j < |descs| && descs[i].refcount == 0 && descs[j].refcount == 0
  }

  /** Nothing is opened or closed, and every description in use keeps its meaning. */
  ghost predicate NothingClosed(s: State, s': State) {
    && s'.pipes == s.pipes && s'.made == s.made && s'.handles == s.handles && s'.closed == s.closed && s'.leaked == s.leaked && s'.freed == s.freed
    && |s'.descs| == |s.descs| && forall d :: 0 <= d < |s.descs| ==> s'.descs[d].kind == s.descs[d].kind
  }

  /** The entries from `k` on are still unused, the ones before are those of `from`. */
  predicate CopiedUpTo(table: Table, from: Table, k: nat) {
    |table| == |from| && forall i :: 0 <= i < |table| ==> table[i] == (if i < k && from[i].desc.Some? then from[i] else EMPTY)
  }

  /** What closing on exec leaves of a table. */
  function ExecTable(table: Table): (r: Table)
    ensures |r| == |table|
    ensures forall i :: 0 <= i < |table| ==> r[i] == if table[i].cloexec && table[i].desc.Some? then EMPTY else table[i]
  {
    seq(|table|, i requires 0 <= i < |table| => if table[i].cloexec && table[i].desc.Some? then EMPTY else table[i])
  }

  /** A child starts with the parent's descriptors and nothing in its unused entries. */
  function ChildTable(table: Table): (r: Table)
    ensures |r| == |table|
    ensures forall i :: 0 <= i < |table| ==> r[i] == if table[i].desc.Some? then table[i] else EMPTY
  {
    seq(|table|, i requires 0 <= i < |table| => if table[i].desc.Some? then table[i] else EMPTY)
  }

  /** A spawn action: SPAWN_DUP2, or one of the others, which leave descriptors alone and may fail. */
  datatype Action = DupTo(oldFd: int, newFd: int) | Other(succeeds: bool)

  /** The child's table after one action, or nothing when the action fails. */
  function Acted(table: Table, a: Action): (r: Option<Table>)
    ensures r.Some? ==> |r.value| == |table|
  {
    match a
    case Other(succeeds) => if succeeds then Some(table) else None
    case DupTo(oldFd, newFd) =>
      if !(0 <= oldFd < |table| && table[oldFd].desc.Some? && 0 <= newFd < |table|) then None
      else if oldFd == newFd then Some(table)
      else Some(table[newFd := Slot(table[oldFd].desc, false)])
  }

  function ActedAll(table: Table, actions: seq<Action>): (r: Option<Table>)
    ensures r.Some? ==> |r.value| == |table|
    decreases |actions|
  {
    if actions == [] then Some(table) else
      var rest := ActedAll(table, actions[..|actions| - 1]);
      if rest.None? then None else Acted(rest.value, actions[|actions| - 1])
  }

  lemma {:induction false} ActedAllPrefix(table: Table, actions: seq<Action>, n: nat)
    requires n <= |actions| && ActedAll(table, actions[..n]).None?
    ensures ActedAll(table, actions).None?
    decreases |actions| - n
  {
    if n < |actions| {
      assert actions[..n + 1][..n] == actions[..n];
      ActedAllPrefix(table, actions, n + 1);
    } else {
      assert actions[..n] == actions;
    }
  }

  /** Actions are carried out in their order. */
  lemma {:induction false} ActedAllJoins(table: Table, a: seq<Action>, b: seq<Action>)
    ensures ActedAll(table, a + b) == if ActedAll(table, a).None? then None else ActedAll(ActedAll(table, a).value, b)
    decreases |b|
  {
    if b == [] {
      assert a + b == a;
    } else {
      assert (a + b)[..|a + b| - 1] == a + b[..|b| - 1];
      ActedAllJoins(table, a, b[..|b| - 1]);
    }
  }

  /** The child's table after the actions before the first failing one. */
  function ActedPart(table: Table, actions: seq<Action>): (r: Table)
    ensures |r| == |table|
    decreases |actions|
  {
    if actions == [] then table else
      var rest := ActedAll(table, actions[..|actions| - 1]);
      if rest.None? then ActedPart(table, actions[..|actions| - 1])
      else
        var last := Acted(rest.value, actions[|actions| - 1]);
        if last.Some? then last.value else rest.value
  }

  lemma ActedPartAll(table: Table, actions: seq<Action>)
    ensures ActedAll(table, actions).Some? ==> ActedPart(table, actions) == ActedAll(table, actions).value
  {
  }

  lemma {:induction false} ActedPartPrefix(table: Table, actions: seq<Action>, n: nat)
    requires n <= |actions| && ActedAll(table, actions[..n]).None?
    ensures ActedPart(table, actions) == ActedPart(table, actions[..n])
    decreases |actions|
  {
    if n == |actions| {
      assert actions[..n] == actions;
    } else {
      var front := actions[..|actions| - 1];
      assert front[..n] == actions[..n];
      ActedAllPrefix(table, front, n);
      ActedPartPrefix(table, front, n);
    }
  }

  /** Nothing is done behind the first action that fails. */
  lemma ActedPartStops(table: Table, a: seq<Action>, x: Action, b: seq<Action>)
    requires ActedAll(table, a).Some? && Acted(ActedAll(table, a).value, x).None?
    ensures ActedAll(table, a + [x] + b).None? && ActedPart(table, a + [x] + b) == ActedAll(table, a).value
  {
    var n := |a| + 1;
    assert (a + [x])[..|a|] == a;
    assert (a + [x] + b)[..n] == a + [x];
    ActedAllPrefix(table, a + [x] + b, n);
    ActedPartPrefix(table, a + [x] + b, n);
  }

  /** One more action after i that succeeded. */
  lemma ActedOne(table: Table, actions: seq<Action>, i: nat, now: Table)
    requires i < |actions| && ActedAll(table, actions[..i]) == Some(now)
    ensures ActedAll(table, actions[..i + 1]) == Acted(now, actions[i])
    ensures Acted(now, actions[i]).None? ==> ActedAll(table, actions).None? && ActedPart(table, actions) == now
  {
    assert actions[..i + 1][..i] == actions[..i];
    if Acted(now, actions[i]).None? {
      ActedAllPrefix(table, actions, i + 1);
      ActedPartPrefix(table, actions, i + 1);
    }
  }

  /** What `add_task` makes of a copy of the table: close-on-exec comes only after all actions. */
  function LeftTable(table: Table, actions: seq<Action>): (r: Table)
    ensures |r| == |table|
  {
    var acted := ActedAll(ChildTable(table), actions);
    if acted.Some? then ExecTable(acted.value) else ActedPart(ChildTable(table), actions)
  }

  predicate AllClosed(table: Table) {
    forall i :: 0 <= i < |table| ==> table[i].desc.None?
  }

  predicate AllCloexec(table: Table) {
    forall i :: 0 <= i < |table| && table[i].desc.Some? ==> table[i].cloexec
  }

  /**
   With a failing action, nothing is left only if the parent has nothing open; otherwise, if all that is
   open after the actions is close-on-exec.
   */
  predicate LeavesNothing(table: Table, actions: seq<Action>) {
    var acted := ActedAll(ChildTable(table), actions);
    if acted.None? then AllClosed(table) else AllCloexec(acted.value)
  }

  lemma ActedOpen(table: Table, a: Action)
    ensures Acted(table, a).Some? ==> (AllClosed(Acted(table, a).value) <==> AllClosed(table))
  {
    var acted := Acted(table, a);
    if acted.Some? && a.DupTo? && a.oldFd != a.newFd {
      assert acted.value[a.newFd].desc.Some? && table[a.oldFd].desc.Some?;
    }
  }

  lemma {:induction false} ActedPartOpen(table: Table, actions: seq<Action>)
    ensures AllClosed(ActedPart(table, actions)) <==> AllClosed(table)
    ensures ActedAll(table, actions).Some? ==> (AllClosed(ActedAll(table, actions).value) <==> AllClosed(table))
    decreases |actions|
  {
    if actions != [] {
      var front := actions[..|actions| - 1];
      ActedPartOpen(table, front);
      var rest := ActedAll(table, front);
      if rest.Some? { ActedOpen(rest.value, actions[|actions| - 1]); }
    }
  }

  lemma LeftUnused(table: Table, actions: seq<Action>)
    requires |table| == MAX_FDS
    ensures Unused(LeftTable(table, actions)) <==> LeavesNothing(table, actions)
  {
    var child := ChildTable(table);
    assert AllClosed(child) <==> AllClosed(table) by {
      if AllClosed(child) {
        forall i | 0 <= i < |table| ensures table[i].desc.None? { assert child[i].desc.None?; }
      }
    }
    ActedPartOpen(child, actions);
    var acted := ActedAll(child, actions);
    if acted.Some? {
      ExecUnused(acted.value);
    }
  }

  lemma NoActions(table: Table)
    ensures LeftTable(table, []) == ExecTable(ChildTable(table))
    ensures LeavesNothing(table, []) <==> AllCloexec(table)
  {
    if AllCloexec(ChildTable(table)) {
      forall i | 0 <= i < |table| && table[i].desc.Some? ensures table[i].cloexec { assert ChildTable(table)[i].desc.Some?; }
    }
  }

  lemma ExecUnused(table: Table)
    requires |table| == MAX_FDS
    ensures Unused(ExecTable(table)) <==> AllCloexec(table)
  {
    if Unused(ExecTable(table)) {
      forall i | 0 <= i < |table| && table[i].desc.Some? ensures table[i].cloexec { assert ExecTable(table)[i].desc.None?; }
    }
  }

  function EmptyTable(): (t: Table)
    ensures |t| == MAX_FDS && forall i :: 0 <= i < MAX_FDS ==> t[i] == EMPTY
  {
    seq(MAX_FDS, _ => EMPTY)
  }

  const CLOSED := Desc(File(0), 0)

  function NoDescs(): (r: seq<Desc>)
    ensures |r| == MAX_FILES && forall d :: 0 <= d < MAX_FILES ==> r[d] == CLOSED
  {
    seq(MAX_FILES, _ => CLOSED)
  }

  function Start(): State {
    State(map[0 := EmptyTable()], NoDescs(), map[], {}, multiset{}, {}, multiset{}, {})
  }

  lemma StartInv()
    ensures Inv(Start())
  {
    var s := Start();
    forall d: nat | d < MAX_FILES ensures s.descs[d].refcount == Count(s.tables, d) {
      assert Users(s.tables, d) == {};
    }
    assert forall p, readEnd :: Ends(s.descs, p, readEnd) == {};
  }

  /** `file_descriptions`, the tables of all user tasks and the live pipes. Ids of handles and pipes are not reused. */
  class Files {
    var tables: map<nat, Table>
    const descs: array<Desc>
    var pipes: map<nat, Pipe>
    var current: nat
    var nextId: nat
    ghost var handles: set<nat>
    ghost var closed: multiset<nat>
    ghost var leaked: set<nat>
    ghost var made: set<nat>
    ghost var freed: multiset<nat>

    ghost function Now(): State
      reads this, descs
    {
      State(tables, descs[..], pipes, made, freed, handles, closed, leaked)
    }

    ghost predicate Valid()
      reads this, descs
    {
      && Inv(Now()) && current in tables && descs.Length == MAX_FILES
      && (forall t :: t in tables ==> |tables[t]| == MAX_FDS)
      && (forall h :: h in handles ==> h < nextId)
      && (forall p :: p in made ==> p < nextId)
    }

    /** One task with nothing open. */
    constructor ()
      ensures Valid() && Now() == Start() && current == 0 && fresh(descs)
    {
      descs := new Desc[MAX_FILES](_ => CLOSED);
      tables, pipes, current, nextId := map[0 := EmptyTable()], map[], 0, 0;
      made, freed, handles, closed, leaked := {}, multiset{}, {}, multiset{}, {};
      new;
      StartInv();
      assert descs[..] == Start().descs;
    }

    method SetDesc(d: nat, v: Desc)
      requires d < descs.Length
      modifies descs
      ensures descs[..] == old(descs[..])[d := v]
    {
      descs[d] := v;
    }

    /** `remove_pipe_reader` and `remove_pipe_writer`, on a pipe that must still be there. */
    method RemovePipeEnd(p: nat, readEnd: bool)
      requires p in pipes && (if readEnd then pipes[p].readers > 0 else pipes[p].writers > 0)
      modifies this`pipes, this`freed
      ensures Now() == CloseKind(old(Now()), PipeEnd(p, readEnd))
    {
      var ends := pipes[p];
      ends := if readEnd then ends.(readers := ends.readers - 1) else ends.(writers := ends.writers - 1);
      if ends.readers == 0 && ends.writers == 0 {
        pipes := pipes - {p};
        freed := freed + multiset{p};
      } else {
        pipes := pipes[p := ends];
      }
    }

    /** `close_file_description`, whose file system and socket callbacks succeed. */
    method CloseDescription(kind: Kind)
      requires kind.PipeEnd? ==> kind.pipe in pipes
                                 && (if kind.readEnd then pipes[kind.pipe].readers > 0 else pipes[kind.pipe].writers > 0)
      modifies this`pipes, this`freed, this`closed
      ensures Now() == CloseKind(old(Now()), kind)
    {
      match kind {
        case File(h) => closed := closed + multiset{h};
        case Socket(h) => closed := closed + multiset{h};
        case PipeEnd(p, readEnd) => RemovePipeEnd(p, readEnd);
      }
    }

    /** Drops the entry `fd` of task `t`: the body of `fd_close`, also run over whole tables. */
    method Drop(t: nat, fd: nat)
      requires Valid() && t in tables && fd < MAX_FDS && tables[t][fd].desc.Some?
      modifies this`tables, this`pipes, this`closed, this`freed, descs
      ensures Valid() && Now() == DropSlot(old(Now()), t, fd) && Closes(old(Now()), Now())
    {
      ghost var s := Now();
      DropSlotInv(s, t, fd);
      DropCloses(s, t, fd);
      Release(tables[t][fd].desc.value);
      tables := SetSlot(tables, t, fd, EMPTY);
    }

    lemma EntryCounted(t: nat, fd: nat)
      requires Valid() && t in tables && fd < MAX_FDS && tables[t][fd].desc.Some?
      ensures Counted(Now(), t, fd)
    {
      assert Gate(0);
      UserCounted(Now(), t, fd);
    }

    /** `--refcount`, and the close that follows the last reference. */
    method Release(d: nat)
      requires Inv(Now()) && d < descs.Length && descs[d].refcount > 0
      modifies this`pipes, this`closed, this`freed, descs
      ensures Now() == Unref(old(Now()), d)
    {
      var kind, n := descs[d].kind, descs[d].refcount - 1;
      if kind.PipeEnd? { EndCounted(Now(), d); }
      SetDesc(d, Desc(kind, n));
      if n == 0 { CloseDescription(kind); }
    }

    /** `fd_close`. */
    method FdClose(fd: int) returns (r: Result)
      requires Valid()
      modifies this`tables, this`pipes, this`closed, this`freed, descs
      ensures Valid()
      ensures r == if 0 <= fd < MAX_FDS && old(tables[current])[fd].desc.Some? then Ok(0) else Err(EBADF)
      ensures Now() == if r.Ok? then DropSlot(old(Now()), current, fd) else old(Now())
      ensures r.Ok? ==>
        (var d := old(tables[current])[fd].desc.value; d < MAX_FILES && var was := old(descs[..])[d];
         && tables == old(tables)[current := old(tables[current])[fd := Slot(None, false)]]
         && was.refcount > 0 && descs[..] == old(descs[..])[d := was.(refcount := was.refcount - 1)]
         && (was.refcount > 1 ==> closed == old(closed) && pipes == old(pipes) && freed == old(freed))
         && (was.refcount == 1 && !was.kind.PipeEnd? ==> closed == old(closed) + multiset{was.kind.handle} && pipes == old(pipes))
         && (was.refcount == 1 && was.kind.PipeEnd? ==> closed == old(closed) && forall p :: p != was.kind.pipe ==> (p in pipes <==> p in old(pipes))))
      ensures Closes(old(Now()), Now())
    {
      if fd < 0 || fd >= MAX_FDS || tables[current][fd].desc.None? { return Err(EBADF); }
      EntryCounted(current, fd);
      Drop(current, fd);
      r := Ok(0);
    }

    /** Enters `slot`'s description a second time, at an unused place. */
    method Share(t: nat, fd: nat, slot: Slot)
      requires Valid() && t in tables && fd < MAX_FDS && tables[t][fd].desc.None?
      requires slot.desc.Some? && slot.desc.value < MAX_FILES && descs[slot.desc.value].refcount > 0
      modifies this`tables, descs
      ensures Valid() && Now() == ShareSlot(old(Now()), t, fd, slot)
    {
      ghost var s := Now();
      ShareSlotInv(s, t, fd, slot);
      var d := slot.desc.value;
      SetDesc(d, descs[d].(refcount := descs[d].refcount + 1));
      tables := SetSlot(tables, t, fd, slot);
      assert Now() == ShareSlot(s, t, fd, slot);
    }

    /** `dup` (F_DUPFD and F_DUPFD_CLOEXEC): the lowest unused entry from `minfd` on. */
    method Dup(fd: int, minfd: int, cloexec: bool) returns (r: Result)
      requires Valid()
      modifies this`tables, descs
      ensures Valid()
      ensures r == Err(EBADF) <==> !IsOpen(old(tables[current]), fd)
      ensures r == Err(EINVAL) <==> IsOpen(old(tables[current]), fd) && !(0 <= minfd < MAX_FDS)
      ensures r == Err(EMFILE) <==> IsOpen(old(tables[current]), fd) && 0 <= minfd < MAX_FDS && !FreeFrom(old(tables[current]), minfd)
      ensures r.Ok? <==> IsOpen(old(tables[current]), fd) && 0 <= minfd < MAX_FDS && FreeFrom(old(tables[current]), minfd)
      ensures r.Ok? ==> && 0 <= fd < MAX_FDS && 0 <= minfd && IsLowestFree(old(tables[current]), minfd, r.fd)
                        && Now() == ShareSlot(old(Now()), current, r.fd, Slot(old(tables[current])[fd].desc, cloexec))
      ensures r.Ok? ==>
        (var d := old(tables[current])[fd].desc.value; d < MAX_FILES && var was := old(descs[..])[d];
         && minfd <= r.fd && (forall j :: minfd <= j < r.fd ==> old(tables[current])[j].desc.Some?)
         && tables == old(tables)[current := old(tables[current])[r.fd := Slot(Some(d), cloexec)]]
         && descs[..] == old(descs[..])[d := was.(refcount := was.refcount + 1)])
      ensures r.Err? ==> Now() == old(Now())
    {
      if fd < 0 || fd >= MAX_FDS || tables[current][fd].desc.None? { return Err(EBADF); }
      if minfd < 0 || minfd >= MAX_FDS { return Err(EINVAL); }
      var i := minfd;
      while i < MAX_FDS
        invariant minfd <= i <= MAX_FDS && forall j :: minfd <= j < i ==> tables[current][j].desc.Some?
      {
        if tables[current][i].desc.None? {
          EntryCounted(current, fd);
          Share(current, i, Slot(tables[current][fd].desc, cloexec));
          return Ok(i);
        }
        i := i + 1;
      }
      r := Err(EMFILE);
    }

    /** `dup2`: what was at `newFd` is closed first; duplicating an entry onto itself does nothing. */
    method Dup2(fd: int, newFd: int) returns (r: Result)
      requires Valid()
      modifies this`tables, this`pipes, this`closed, this`freed, descs
      ensures Valid()
      ensures r.Ok? <==> 0 <= fd < MAX_FDS && old(tables[current])[fd].desc.Some? && 0 <= newFd < MAX_FDS
      ensures r.Err? || fd == newFd ==> Now() == old(Now())
      ensures r.Ok? && fd != newFd ==>
        && Now() == ShareSlot(DropSlot(old(Now()), current, newFd), current, newFd, Slot(old(tables[current])[fd].desc, false))
        && tables == old(tables)[current := old(tables[current])[newFd := Slot(old(tables[current])[fd].desc, false)]]
      ensures Closes(old(Now()), Now())
    {
      if fd < 0 || fd >= MAX_FDS || tables[current][fd].desc.None? { return Err(EBADF); }
      if newFd < 0 || newFd >= MAX_FDS { return Err(EBADF); }
      if fd == newFd { return Ok(newFd); }
      if tables[current][newFd].desc.Some? { EntryCounted(current, newFd); }
      var closing := FdClose(newFd);
      EntryCounted(current, fd);
      var slot := Slot(tables[current][fd].desc, false);
      SetSlotTwice(old(tables), current, newFd, slot);
      ghost var mid := Now();
      Share(current, newFd, slot);
      ClosesIf(mid, Now());
      ClosesTrans(old(Now()), mid, Now());
      r := Ok(newFd);
    }

    method FindEntry(from: nat) returns (r: Option<nat>)
      requires Valid() && from <= MAX_FDS
      ensures r.Some? ==> IsLowestFree(tables[current], from, r.value)
      ensures r.None? ==> forall j :: from <= j < MAX_FDS ==> tables[current][j].desc.Some?
    {
      var i := from;
      while i < MAX_FDS
        invariant from <= i <= MAX_FDS && forall j :: from <= j < i ==> tables[current][j].desc.Some?
      {
        if tables[current][i].desc.None? { return Some(i); }
        i := i + 1;
      }
      r := None;
    }

    method FindDesc(from: nat) returns (r: Option<nat>)
      requires Valid() && from <= MAX_FILES
      ensures r.Some? ==> from <= r.value < MAX_FILES && descs[r.value].refcount == 0 && forall j :: from <= j < r.value ==> descs[j].refcount > 0
      ensures r.None? ==> forall j :: from <= j < MAX_FILES ==> descs[j].refcount > 0
    {
      var i := from;
      while i < MAX_FILES
        invariant from <= i <= MAX_FILES && forall j :: from <= j < i ==> descs[j].refcount > 0
      {
        if descs[i].refcount == 0 { return Some(i); }
        i := i + 1;
      }
      r := None;
    }

    /** A new handle from the file system or the socket layer. */
    method NewHandle() returns (h: nat)
      requires Valid()
      modifies this`nextId
      ensures Valid() && h == old(nextId) && h !in handles && nextId == h + 1
    {
      h := nextId;
      nextId := nextId + 1;
    }

    /**
     The end of `fd_open` and `fd_socket`, once the path or protocol has been accepted. `opens` and
     `truncates` are the answers of the file system; `truncates` matters for O_TRUNC only.
     */
    method OpenDescription(socket: bool, cloexec: bool, opens: bool, truncates: bool)
      returns (r: Result, ghost d: nat, ghost kind: Kind)
      requires Valid()
      modifies this`tables, this`nextId, this`handles, this`leaked, descs
      ensures Valid()
      ensures r.Ok? ==>
        && IsLowestFree(old(tables[current]), 0, r.fd) && d < MAX_FILES && old(descs[..])[d].refcount == 0
        && !kind.PipeEnd? && kind.Socket? == socket && kind.handle !in old(handles)
        && Now() == OpenSlot(old(Now()), current, r.fd, d, kind, cloexec)
      ensures r.Ok? ==>
        && (forall j :: 0 <= j < r.fd ==> old(tables[current])[j].desc.Some?)
        && tables == old(tables)[current := old(tables[current])[r.fd := Slot(Some(d), cloexec)]]
        && descs[..] == old(descs[..])[d := Desc(kind, 1)] && handles == old(handles) + {kind.handle} && leaked == old(leaked)
      ensures r == Err(EMFILE) <==> !FreeFrom(old(tables[current]), 0)
      ensures r == Err(ENFILE) <==> FreeFrom(old(tables[current]), 0) && !FreeDesc(old(descs[..]))
      ensures r == Err(EIO) <==> FreeFrom(old(tables[current]), 0) && FreeDesc(old(descs[..])) && !(opens && truncates)
      ensures r.Ok? <==> FreeFrom(old(tables[current]), 0) && FreeDesc(old(descs[..])) && opens && truncates
      ensures r == Err(EIO) && opens ==>
        && kind.File? && kind.handle !in old(handles) && Now() == Leaked(old(Now()), kind.handle)
        && tables == old(tables) && handles == old(handles) + {kind.handle} && leaked == old(leaked) + {kind.handle}
      ensures r.Err? && !(r == Err(EIO) && opens) ==> Now() == old(Now())
    {
      d, kind := 0, File(0);
      var entry := FindEntry(0);
      if entry.None? { return Err(EMFILE), d, kind; }
      var desc := FindDesc(0);
      if desc.None? { return Err(ENFILE), d, kind; }
      if !opens { return Err(EIO), d, kind; }
      kind := if socket then Socket(nextId) else File(nextId);
      if !truncates { kind := File(nextId); }
      Finish(entry.value, desc.value, socket, cloexec, truncates);
      d := desc.value;
      r := if truncates then Ok(entry.value) else Err(EIO);
    }

    /** The file is open: it is truncated if asked for, and entered or lost. */
    method Finish(fd: nat, d: nat, socket: bool, cloexec: bool, truncates: bool)
      requires Valid() && fd < MAX_FDS && tables[current][fd].desc.None? && d < MAX_FILES && descs[d].refcount == 0
      modifies this`tables, this`nextId, this`handles, this`leaked, descs
      ensures Valid() && old(nextId) !in old(handles)
      ensures Now() == if truncates then OpenSlot(old(Now()), current, fd, d, if socket then Socket(old(nextId)) else File(old(nextId)), cloexec)
                       else Leaked(old(Now()), old(nextId))
    {
      var h := NewHandle();
      if truncates {
        Install(fd, d, if socket then Socket(h) else File(h), cloexec);
      } else {
        LeakInv(Now(), h);
        handles, leaked := handles + {h}, leaked + {h};
      }
    }

    method Install(fd: nat, d: nat, kind: Kind, cloexec: bool)
      requires Valid() && fd < MAX_FDS && tables[current][fd].desc.None? && d < MAX_FILES && descs[d].refcount == 0
      requires !kind.PipeEnd? && kind.handle !in handles && kind.handle < nextId
      modifies this`tables, this`handles, descs
      ensures Valid() && Now() == OpenSlot(old(Now()), current, fd, d, kind, cloexec)
    {
      OpenSlotInv(Now(), current, fd, d, kind, cloexec);
      SetDesc(d, Desc(kind, 1));
      tables := SetSlot(tables, current, fd, Slot(Some(d), cloexec));
      handles := handles + {kind.handle};
    }

    method InstallPipe(rfd: nat, wfd: nat, r: nat, w: nat)
      requires Valid() && rfd < wfd < MAX_FDS && tables[current][rfd].desc.None? && tables[current][wfd].desc.None?
      requires r < w < MAX_FILES && descs[r].refcount == 0 && descs[w].refcount == 0
      modifies this`tables, this`nextId, this`pipes, this`made, descs
      ensures Valid() && Now() == OpenPipe(old(Now()), current, rfd, wfd, r, w, old(nextId))
    {
      var p := nextId;
      OpenPipeInv(Now(), current, rfd, wfd, r, w, p);
      SetDesc(r, Desc(PipeEnd(p, true), 1));
      SetDesc(w, Desc(PipeEnd(p, false), 1));
      pipes, made := pipes[p := Pipe(1, 1)], made + {p};
      nextId := nextId + 1;
      tables := SetSlot(SetSlot(tables, current, rfd, Slot(Some(r), false)), current, wfd, Slot(Some(w), false));
    }

    /** `pipe`: the two lowest unused entries and the two lowest unused descriptions. */
    method OpenPipeEnds() returns (r: Result, wfd: nat, ghost rd: nat, ghost wd: nat)
      requires Valid()
      modifies this`tables, this`nextId, this`pipes, this`made, descs
      ensures Valid()
      ensures r.Ok? ==> && IsLowestFree(old(tables[current]), 0, r.fd) && IsLowestFree(old(tables[current]), r.fd + 1, wfd)
                        && rd < wd < MAX_FILES && old(descs[..])[rd].refcount == 0 && old(descs[..])[wd].refcount == 0
                        && old(nextId) !in old(made) && Now() == OpenPipe(old(Now()), current, r.fd, wfd, rd, wd, old(nextId))
      ensures r.Ok? ==>
        (var p, table := old(nextId), old(tables[current]);
         && r.fd < wfd < MAX_FDS && (forall j :: 0 <= j < wfd ==> (table[j].desc.None? <==> j == r.fd)) && table[wfd].desc.None?
         && tables == old(tables)[current := table[r.fd := Slot(Some(rd), false)][wfd := Slot(Some(wd), false)]]
         && descs[..] == old(descs[..])[rd := Desc(PipeEnd(p, true), 1)][wd := Desc(PipeEnd(p, false), 1)]
         && p !in old(made) && made == old(made) + {p} && pipes == old(pipes)[p := Pipe(1, 1)])
      ensures r == Err(EMFILE) <==> !TwoFree(old(tables[current]))
      ensures r == Err(ENFILE) <==> TwoFree(old(tables[current])) && !TwoFreeDescs(old(descs[..]))
      ensures r.Ok? <==> TwoFree(old(tables[current])) && TwoFreeDescs(old(descs[..]))
      ensures r.Err? ==> Now() == old(Now())
    {
      wfd, rd, wd := 0, 0, 0;
      var first := FindEntry(0);
      if first.None? { return Err(EMFILE), 0, 0, 0; }
      var second := FindEntry(first.value + 1);
      if second.None? { return Err(EMFILE), 0, 0, 0; }
      var dr := FindDesc(0);
      if dr.None? { return Err(ENFILE), 0, 0, 0; }
      var dw := FindDesc(dr.value + 1);
      if dw.None? { return Err(ENFILE), 0, 0, 0; }
      SetSlots(tables, current, first.value, Slot(Some(dr.value), false), second.value, Slot(Some(dw.value), false));
      InstallPipe(first.value, second.value, dr.value, dw.value);
      return Ok(first.value), second.value, dr.value, dw.value;
    }

    /** The struct copy and counting loop of `fork` and `add_task`: the child shares every descriptor of the parent. */
    method CopyTable(child: nat)
      requires Valid() && child !in tables
      modifies this`tables, descs
      ensures Valid() && NothingClosed(old(Now()), Now())
      ensures tables == old(tables)[child := ChildTable(old(tables[current]))]
    {
      ghost var s := Now();
      TaskAddedInv(s, child, EmptyTable());
      tables := tables[child := EmptyTable()];
      var fd := 0;
      while fd < MAX_FDS
        invariant fd <= MAX_FDS && Valid() && NothingClosed(s, Now())
        invariant child in tables && tables == s.tables[child := tables[child]]
        invariant CopiedUpTo(tables[child], s.tables[current], fd)
      {
        if tables[current][fd].desc.Some? {
          EntryCounted(current, fd);
          Share(child, fd, tables[current][fd]);
        }
        fd := fd + 1;
      }
      assert tables[child] == ChildTable(s.tables[current]);
    }

    /** `release_process_fds`, at exit and at the end of execve. */
    method ReleaseTable(t: nat)
      requires Valid() && t in tables
      modifies this`tables, this`pipes, this`closed, this`freed, descs
      ensures Valid() && t in tables && Unused(tables[t]) && tables == old(tables)[t := tables[t]]
      ensures Closes(old(Now()), Now())
    {
      ghost var s := Now();
      var fd := 0;
      while fd < MAX_FDS
        invariant fd <= MAX_FDS && Valid() && t in tables && tables == s.tables[t := tables[t]]
        invariant forall i :: 0 <= i < fd ==> tables[t][i].desc.None?
        invariant Closes(s, Now())
      {
        if tables[t][fd].desc.Some? {
          ghost var mid := Now();
          EntryCounted(t, fd);
          Drop(t, fd);
          ClosesTrans(s, mid, Now());
        }
        fd := fd + 1;
      }
    }

    /** The O_CLOEXEC loop of `add_task`. */
    method CloseOnExec(t: nat)
      requires Valid() && t in tables
      modifies this`tables, this`pipes, this`closed, this`freed, descs
      ensures Valid() && tables == old(tables)[t := ExecTable(old(tables)[t])]
      ensures Closes(old(Now()), Now())
    {
      ghost var s, table := Now(), tables[t];
      var fd := 0;
      while fd < MAX_FDS
        invariant fd <= MAX_FDS && Valid() && t in tables && tables == s.tables[t := tables[t]]
        invariant forall i :: 0 <= i < fd ==> tables[t][i] == ExecTable(table)[i]
        invariant forall i :: fd <= i < MAX_FDS ==> tables[t][i] == table[i]
        invariant Closes(s, Now())
      {
        if tables[t][fd].desc.Some? && tables[t][fd].cloexec {
          ghost var mid := Now();
          EntryCounted(t, fd);
          Drop(t, fd);
          ClosesTrans(s, mid, Now());
        }
        fd := fd + 1;
      }
      assert tables[t] == ExecTable(table);
    }

    /** One spawn action, run with the child as the current task. */
    method Act(child: nat, a: Action) returns (ok: bool)
      requires Valid() && child in tables
      modifies this`current, this`tables, this`pipes, this`closed, this`freed, descs
      ensures Valid() && current == old(current) && child in tables && tables == old(tables)[child := tables[child]]
      ensures ok == Acted(old(tables)[child], a).Some?
      ensures tables[child] == if ok then Acted(old(tables)[child], a).value else old(tables)[child]
      ensures a.Other? ==> ok == a.succeeds && tables == old(tables)
      ensures a.DupTo? ==> ok == (IsOpen(old(tables)[child], a.oldFd) && 0 <= a.newFd < MAX_FDS)
      ensures a.DupTo? && ok && a.oldFd != a.newFd ==> tables[child] == old(tables)[child][a.newFd := Slot(old(tables)[child][a.oldFd].desc, false)]
      ensures Closes(old(Now()), Now())
    {
      match a {
        case Other(succeeds) => ok := succeeds;
        case DupTo(oldFd, newFd) =>
          var parent := current;
          current := child;
          var r := Dup2(oldFd, newFd);
          current := parent;
          ok := r.Ok?;
      }
    }

    /** The loop over the spawn actions; it ends at the first one that fails. */
    method RunActions(child: nat, actions: seq<Action>) returns (ok: bool)
      requires Valid() && child in tables
      modifies this`current, this`tables, this`pipes, this`closed, this`freed, descs
      ensures Valid() && current == old(current) && child in tables && tables == old(tables)[child := tables[child]]
      ensures ok == ActedAll(old(tables)[child], actions).Some? && tables[child] == ActedPart(old(tables)[child], actions)
      ensures Closes(old(Now()), Now())
    {
      ghost var s, start := Now(), tables[child];
      var i := 0;
      while i < |actions|
        invariant i <= |actions| && Valid() && current == old(current)
        invariant child in tables && tables == s.tables[child := tables[child]]
        invariant ActedAll(start, actions[..i]) == Some(tables[child]) && Closes(s, Now())
      {
        ghost var mid, table := Now(), tables[child];
        ok := Act(child, actions[i]);
        ClosesTrans(s, mid, Now());
        ActedOne(start, actions, i, table);
        if !ok { return false; }
        i := i + 1;
      }
      assert actions[..|actions|] == actions;
      ActedPartAll(start, actions);
      ok := true;
    }

    /**
     `add_task`: the child gets a copy of the current task's table, its actions and close-on-exec.
     When an action or the loading of the program fails, the half-made table is left behind, and the
     counts that the remaining tasks find are exact only if it happens to be empty.
     */
    method AddTask(child: nat, actions: seq<Action>, loads: bool) returns (ok: bool)
      requires Valid() && child !in tables
      modifies this`current, this`tables, this`pipes, this`closed, this`freed, descs
      ensures Valid() && current == old(current) && child in tables && tables == old(tables)[child := tables[child]]
      ensures ok == (ActedAll(ChildTable(old(tables[current])), actions).Some? && loads)
      ensures tables[child] == LeftTable(old(tables[current]), actions)
      ensures ok ==> forall i :: 0 <= i < MAX_FDS && tables[child][i].desc.Some? ==> !tables[child][i].cloexec
      ensures actions == [] ==> forall i :: 0 <= i < MAX_FDS ==>
        tables[child][i].desc == if old(tables[current])[i].cloexec then None else old(tables[current])[i].desc
      ensures OthersExact(Now(), child) <==> LeavesNothing(old(tables[current]), actions)
      ensures Closes(old(Now()), Now())
    {
      ghost var s, parent := Now(), tables[current];
      CopyTable(child);
      ghost var mid := Now();
      ClosesIf(s, mid);
      ok := RunActions(child, actions);
      ClosesTrans(s, mid, Now());
      if ok {
        ghost var late := Now();
        ActedPartAll(ChildTable(parent), actions);
        CloseOnExec(child);
        ClosesTrans(s, late, Now());
        ok := loads;
      }
      AbandonedTable(Now(), child);
      LeftUnused(parent, actions);
    }

    /** `fork`'s part in the descriptor tables. */
    method Fork(child: nat)
      requires Valid() && child !in tables
      modifies this`tables, descs
      ensures Valid() && NothingClosed(old(Now()), Now())
      ensures tables == old(tables)[child := ChildTable(old(tables[current]))]
      ensures forall i :: 0 <= i < MAX_FDS && old(tables[current])[i].desc.Some? ==> tables[child][i] == old(tables[current])[i]
      ensures Closes(old(Now()), Now())
    {
      CopyTable(child);
      ClosesIf(old(Now()), Now());
    }

    /** `execve`: a new task with what survives the exec takes over, and the old table is released. */
    method Execve(child: nat, loads: bool) returns (ok: bool)
      requires Valid() && child !in tables
      modifies this`current, this`tables, this`pipes, this`closed, this`freed, descs
      ensures Valid() && ok == loads
      ensures ok ==> current == child && old(current) in tables && Unused(tables[old(current)])
                     && tables == old(tables)[child := ExecTable(ChildTable(old(tables[current])))][old(current) := tables[old(current)]]
      ensures ok ==> forall i :: 0 <= i < MAX_FDS ==>
        tables[child][i].desc == if old(tables[current])[i].cloexec then None else old(tables[current])[i].desc
      ensures !ok ==> current == old(current) && tables == old(tables)[child := ExecTable(ChildTable(old(tables[current])))]
      ensures !ok ==> (OthersExact(Now(), child) <==> AllCloexec(old(tables[current])))
      ensures Closes(old(Now()), Now())
    {
      NoActions(tables[current]);
      ok := AddTask(child, [], loads);
      if ok {
        var was := current;
        ghost var mid := Now();
        ReleaseTable(was);
        ClosesTrans(old(Now()), mid, Now());
        current := child;
      }
    }

    /** `exit` releases the table; another task runs next. */
    method Exit(next: nat)
      requires Valid() && next in tables && next != current
      modifies this`current, this`tables, this`pipes, this`closed, this`freed, descs
      ensures Valid() && current == next && old(current) in tables && Unused(tables[old(current)])
      ensures tables == old(tables)[old(current) := tables[old(current)]]
      ensures Closes(old(Now()), Now())
    {
      ReleaseTable(current);
      current := next;
    }

    /** `gc_tasks` forgets a task that has exited. */
    method Forget(t: nat)
      requires Valid() && t in tables && t != current && Unused(tables[t])
      modifies this`tables
      ensures Valid() && tables == old(tables) - {t}
    {
      TaskRemovedInv(Now(), t);
      tables := tables - {t};
    }

    /** The scheduler picks another task. */
    method Switch(t: nat)
      requires Valid() && t in tables
      modifies this`current
      ensures Valid() && current == t && Now() == old(Now())
    {
      current := t;
    }

    // -------------------------------------------------------------- whole runs

    /** One system call or switch; a record that is in use cannot be made again, and only other tasks can be forgotten. */
    method Perform(c: Call)
      requires Valid()
      modifies this, descs
      ensures Valid() && Grows(old(Now()), Now()) && Follows(old(Now()), old(current), c, Now(), current)
    {
      ghost var s := Now();
      match c {
        case Opening(socket, cloexec, opens, truncates) => PerformOpen(c);
        case Piping => PerformPipe(c);
        case Duplicating(fd, minfd, cloexec) => PerformDup(c);
        case Replacing(fd, newFd) =>
          var r := Dup2(fd, newFd);
          ClosesGrows(s, Now());
        case Closing(fd) =>
          var r := FdClose(fd);
          ClosesGrows(s, Now());
        case _ => PerformTask(c);
      }
      FollowsIf(s, old(current), c, Now(), current);
    }

    method PerformOpen(c: Call)
      requires Valid() && c.Opening?
      modifies this, descs
      ensures Valid() && Grows(old(Now()), Now()) && HasTable(old(Now()), old(current)) && Effect(old(Now()), old(current), c, Now(), current)
    {
      ghost var s := Now();
      var r, d, kind := OpenDescription(c.socket, c.cloexec, c.opens, c.truncates);
      GrowsIf(s, Now());
      if r.Ok? { assert NewFile(s, current, Now(), r.fd, d, kind, c.cloexec, c.socket); }
      if r == Err(EIO) && c.opens { assert LostFile(s, Now(), kind.handle); }
    }

    method PerformPipe(c: Call)
      requires Valid() && c.Piping?
      modifies this, descs
      ensures Valid() && Grows(old(Now()), Now()) && HasTable(old(Now()), old(current)) && Effect(old(Now()), old(current), c, Now(), current)
    {
      ghost var s, p := Now(), nextId;
      var r, wfd, rd, wd := OpenPipeEnds();
      GrowsIf(s, Now());
      if r.Ok? { assert NewPipe(s, current, Now(), r.fd, wfd, rd, wd, p); }
    }

    method PerformDup(c: Call)
      requires Valid() && c.Duplicating?
      modifies this, descs
      ensures Valid() && Grows(old(Now()), Now()) && HasTable(old(Now()), old(current)) && Effect(old(Now()), old(current), c, Now(), current)
    {
      ghost var s := Now();
      var r := Dup(c.fd, c.minfd, c.cloexec);
      GrowsIf(s, Now());
      if r.Ok? { assert Duplicate(s, current, Now(), c.fd, c.minfd, r.fd, c.cloexec); }
    }

    method PerformTask(c: Call)
      requires Valid() && (c.Forking? || c.Spawning? || c.Executing? || c.Exiting? || c.Switching? || c.Forgetting?)
      modifies this, descs
      ensures Valid() && Grows(old(Now()), Now()) && HasTable(old(Now()), old(current)) && Effect(old(Now()), old(current), c, Now(), current)
    {
      ghost var s := Now();
      ClosesIf(s, s);
      match c {
        case Forking(child) => if child !in tables { Fork(child); }
        case Spawning(child, actions, loads) => if child !in tables { var ok := AddTask(child, actions, loads); }
        case Executing(child, loads) => if child !in tables { var ok := Execve(child, loads); }
        case Exiting(next) => if next in tables && next != current { Exit(next); }
        case Switching(t) => if t in tables { Switch(t); }
        case Forgetting(t) =>
          if t in tables && t != current && (forall i | 0 <= i < MAX_FDS :: tables[t][i].desc.None?) {
            Forget(t);
            ClosesIf(s, Now());
          }
      }
      ClosesGrows(s, Now());
    }

    /**
     Any sequence of calls: each state follows from the one before by its call, every state keeps the
     promises, and nothing handed out, closed, lost or freed is taken back.
     */
    method Run(calls: seq<Call>) returns (ghost states: seq<State>, ghost currents: seq<nat>)
      requires Valid()
      modifies this, descs
      ensures Valid() && |states| == |calls| + 1 && Recorded(states, currents, calls)
      ensures states[0] == old(Now()) && states[|calls|] == Now() && currents[0] == old(current) && currents[|calls|] == current
    {
      states, currents := [Now()], [current];
      KeepsPromises(Now());
      GrowsIf(Now(), Now());
      var n := 0;
      while n < |calls|
        invariant n <= |calls| && Valid() && |states| == n + 1 && Recorded(states, currents, calls)
        invariant states[0] == old(Now()) && states[n] == Now() && currents[0] == old(current) && currents[n] == current
      {
        Perform(calls[n]);
        RecordOne(states, currents, calls, Now(), current);
        states, currents := states + [Now()], currents + [current];
        n := n + 1;
      }
    }
  }

  datatype Call =
    | Opening(socket: bool, cloexec: bool, opens: bool, truncates: bool)
    | Duplicating(fd: int, minfd: int, cloexec: bool)
    | Replacing(fd: int, newFd: int)
    | Piping
    | Closing(fd: int)
    | Forking(child: nat)
    | Spawning(child: nat, actions: seq<Action>, loads: bool)
    | Executing(child: nat, loads: bool)
    | Exiting(next: nat)
    | Switching(task: nat)
    | Forgetting(task: nat)

  ghost predicate HasTable(s: State, t: nat) {
    t in s.tables && |s.tables[t]| == MAX_FDS && |s.descs| == MAX_FILES
  }

  ghost predicate NewFile(s: State, t: nat, s': State, fd: nat, d: nat, kind: Kind, cloexec: bool, socket: bool)
    requires HasTable(s, t)
  {
    && IsLowestFree(s.tables[t], 0, fd) && d < MAX_FILES && s.descs[d].refcount == 0
    && !kind.PipeEnd? && kind.Socket? == socket && kind.handle !in s.handles
    && s' == OpenSlot(s, t, fd, d, kind, cloexec)
  }

  ghost predicate LostFile(s: State, s': State, h: nat) {
    h !in s.handles && s' == Leaked(s, h)
  }

  ghost predicate NewPipe(s: State, t: nat, s': State, rfd: nat, wfd: nat, r: nat, w: nat, p: nat)
    requires HasTable(s, t)
  {
    && IsLowestFree(s.tables[t], 0, rfd) && IsLowestFree(s.tables[t], rfd + 1, wfd)
    && r < w < MAX_FILES && s.descs[r].refcount == 0 && s.descs[w].refcount == 0 && p !in s.made
    && s' == OpenPipe(s, t, rfd, wfd, r, w, p)
  }

  ghost predicate Duplicate(s: State, t: nat, s': State, fd: int, minfd: int, i: nat, cloexec: bool)
    requires HasTable(s, t)
  {
    && IsOpen(s.tables[t], fd) && 0 <= minfd && IsLowestFree(s.tables[t], minfd, i)
    && s' == ShareSlot(s, t, i, Slot(s.tables[t][fd].desc, cloexec))
  }

  /** What a call of task t does, and which task is the current one then. */
  ghost predicate Effect(s: State, t: nat, c: Call, s': State, t': nat)
    requires HasTable(s, t)
  {
    var table := s.tables[t];
    match c
    case Opening(socket, cloexec, opens, truncates) =>
      t' == t && (if !FreeFrom(table, 0) || !FreeDesc(s.descs) || !opens then s' == s
                  else if !truncates then exists h :: LostFile(s, s', h)
                  else exists fd, d, kind :: NewFile(s, t, s', fd, d, kind, cloexec, socket))
    case Duplicating(fd, minfd, cloexec) =>
      t' == t && (if IsOpen(table, fd) && 0 <= minfd < MAX_FDS && FreeFrom(table, minfd)
                  then exists i :: Duplicate(s, t, s', fd, minfd, i, cloexec) else s' == s)
    case Replacing(fd, newFd) =>
      t' == t && s' == (if IsOpen(table, fd) && 0 <= newFd < MAX_FDS && fd != newFd
                        then ShareSlot(DropSlot(s, t, newFd), t, newFd, Slot(table[fd].desc, false)) else s)
    case Piping =>
      t' == t && (if TwoFree(table) && TwoFreeDescs(s.descs)
                  then exists rfd, wfd, r, w, p :: NewPipe(s, t, s', rfd, wfd, r, w, p) else s' == s)
    case Closing(fd) => t' == t && s' == if IsOpen(table, fd) then DropSlot(s, t, fd) else s
    case Forking(child) =>
      t' == t && if child in s.tables then s' == s else s'.tables == s.tables[child := ChildTable(table)] && NothingClosed(s, s')
    case Spawning(child, actions, _) =>
      t' == t && if child in s.tables then s' == s else s'.tables == s.tables[child := LeftTable(table, actions)] && Closes(s, s')
    case Executing(child, loads) =>
      if child in s.tables then s' == s && t' == t
      else if !loads then t' == t && s'.tables == s.tables[child := ExecTable(ChildTable(table))] && Closes(s, s')
      else && t' == child && t in s'.tables && Unused(s'.tables[t]) && Closes(s, s')
           && s'.tables == s.tables[child := ExecTable(ChildTable(table))][t := s'.tables[t]]
    case Exiting(next) =>
      if next !in s.tables || next == t then s' == s && t' == t
      else t' == next && t in s'.tables && Unused(s'.tables[t]) && s'.tables == s.tables[t := s'.tables[t]] && Closes(s, s')
    case Switching(u) => s' == s && t' == if u in s.tables then u else t
    case Forgetting(u) =>
      t' == t && s' == if u in s.tables && u != t && Unused(s.tables[u]) then s.(tables := s.tables - {u}) else s
  }

  ghost predicate Follows(s: State, t: nat, c: Call, s': State, t': nat) {
    HasTable(s, t) && forall z {:trigger Gate(z)} :: Gate(z) ==> Effect(s, t, c, s', t')
  }

  /** States and current tasks, each following from the one before by its call; in none of them a promise is broken, and nothing is taken back later. */
  ghost predicate Recorded(states: seq<State>, currents: seq<nat>, calls: seq<Call>) {
    && 0 < |states| == |currents| <= |calls| + 1
    && (forall i :: 0 <= i < |states| - 1 ==> Follows(states[i], currents[i], calls[i], states[i + 1], currents[i + 1]))
    && (forall i :: 0 <= i < |states| ==> Promises(states[i]) && Grows(states[i], states[|states| - 1]))
  }

  lemma RecordOne(states: seq<State>, currents: seq<nat>, calls: seq<Call>, s: State, t: nat)
    requires Recorded(states, currents, calls) && |states| <= |calls| && Inv(s)
    requires Follows(states[|states| - 1], currents[|states| - 1], calls[|states| - 1], s, t) && Grows(states[|states| - 1], s)
    ensures Recorded(states + [s], currents + [t], calls)
  {
    KeepsPromises(s);
    AllGrow(states, states[|states| - 1], s);
    var states', currents' := states + [s], currents + [t];
    forall i | 0 <= i < |states'| - 1 ensures Follows(states'[i], currents'[i], calls[i], states'[i + 1], currents'[i + 1]) {
      assert states'[i] == states[i] && currents'[i] == currents[i];
      if i + 1 < |states| { assert states'[i + 1] == states[i + 1] && currents'[i + 1] == currents[i + 1]; }
    }
    forall i | 0 <= i < |states'| ensures Promises(states'[i]) && Grows(states'[i], s) {
      if i < |states| { assert states'[i] == states[i]; }
    }
  }

  lemma FollowsIf(s: State, t: nat, c: Call, s': State, t': nat)
    requires HasTable(s, t) && Effect(s, t, c, s', t')
    ensures Follows(s, t, c, s', t')
  {
  }

  // ---------------------------------------------------------------- two concrete failures

  /** A task with one plain file open spawns a program that cannot be loaded: the file's count stays at 2 with one user left. */
  method SpawnOfMissingProgram() returns (files: Files)
    ensures files.Valid() && !OthersExact(files.Now(), 1)
  {
    files := new Files();
    assert EmptyTable()[0].desc.None?;
    assert NoDescs()[0].refcount == 0;
    assert FreeFrom(files.tables[0], 0) && FreeDesc(files.descs[..]);
    var r, d, kind := files.OpenDescription(false, false, true, true);
    ghost var table := files.tables[files.current];
    assert table[r.fd].desc.Some?;
    assert ActedAll(ChildTable(table), []).value[r.fd] == table[r.fd];
    var ok := files.AddTask(1, [], false);
  }

  /** A file that opens but cannot be truncated is handed out and never closed. */
  method OpenOfUntruncatable() returns (files: Files, ghost h: nat)
    ensures files.Valid() && h in files.handles && h in files.leaked && h !in files.closed
  {
    files := new Files();
    assert EmptyTable()[0].desc.None?;
    assert NoDescs()[0].refcount == 0;
    assert FreeFrom(files.tables[0], 0) && FreeDesc(files.descs[..]);
    var r, d, kind := files.OpenDescription(false, false, true, false);
    h := kind.handle;
  }

  // ---------------------------------------------------------------- what the invariant says

  /** The three results below. */
  ghost predicate Promises(s: State) {
    && (forall d: nat :: d < |s.descs| ==> (s.descs[d].refcount > 0 <==> Named(s, d)))
    && (forall p :: p in s.pipes <==> HasEnd(s, p)) && (forall p :: p in s.made ==> s.freed[p] == if HasEnd(s, p) then 0 else 1)
    && (forall h :: h in s.handles && h !in s.leaked ==> s.closed[h] == if Held(s, h) then 0 else 1)
  }

  ghost predicate Named(s: State, d: nat) {
    exists t, fd :: t in s.tables && 0 <= fd < |s.tables[t]| && s.tables[t][fd].desc == Some(d)
  }

  ghost predicate HasEnd(s: State, p: nat) {
    exists d: nat :: d < |s.descs| && s.descs[d].refcount > 0 && s.descs[d].kind.PipeEnd? && s.descs[d].kind.pipe == p
  }

  ghost predicate Held(s: State, h: nat) {
    exists d: nat :: LiveHandle(s.descs, d, h)
  }

  lemma KeepsPromises(s: State)
    requires Inv(s)
    ensures Promises(s)
  {
    forall d: nat | d < |s.descs| ensures s.descs[d].refcount > 0 <==> Named(s, d) { OpenWhileNamed(s, d); }
    forall p ensures (p in s.pipes <==> HasEnd(s, p)) && (p in s.made ==> s.freed[p] == if HasEnd(s, p) then 0 else 1) { PipeWhileEnds(s, p); }
    forall h | h in s.handles && h !in s.leaked ensures s.closed[h] == if Held(s, h) then 0 else 1 { ClosedOnce(s, h); }
  }

  /** A description is open exactly while some table entry names it. */
  lemma OpenWhileNamed(s: State, d: nat)
    requires Inv(s) && d < |s.descs|
    ensures s.descs[d].refcount > 0 <==> Named(s, d)
  {
    assert Gate(0);
    if s.descs[d].refcount > 0 {
      var x :| x in Users(s.tables, d);
    }
    if t, fd :| t in s.tables && 0 <= fd < |s.tables[t]| && s.tables[t][fd].desc == Some(d) {
      CountPositive(s.tables, t, fd, d);
    }
  }

  /** A pipe exists exactly while an open description is one of its ends, and once it is made it is freed exactly once, not before its last end is closed. */
  lemma PipeWhileEnds(s: State, p: nat)
    requires Inv(s)
    ensures p in s.pipes <==> HasEnd(s, p)
    ensures p in s.made ==> s.freed[p] == if HasEnd(s, p) then 0 else 1
  {
    assert Gate(0);
    if p in s.pipes {
      var readEnd := s.pipes[p].readers > 0;
      var d :| d in Ends(s.descs, p, readEnd);
      assert s.descs[d].kind.pipe == p;
    }
  }

  /** An opened handle that was not lost by a failed open is closed exactly once, and not before its description is. */
  lemma ClosedOnce(s: State, h: nat)
    requires Inv(s) && h in s.handles && h !in s.leaked
    ensures s.closed[h] == if Held(s, h) then 0 else 1
  {
    assert Gate(0);
  }

  /** The counts are exact for the tasks other than t. */
  ghost predicate OthersExact(s: State, t: nat) {
    forall d: nat :: d < |s.descs| ==> s.descs[d].refcount == Count(s.tables - {t}, d)
  }

  /** A task that nobody can reach keeps its references, unless its table is empty. */
  lemma AbandonedTable(s: State, t: nat)
    requires Inv(s) && t in s.tables && |s.tables[t]| == MAX_FDS
    ensures OthersExact(s, t) <==> Unused(s.tables[t])
  {
    assert Gate(0);
    if Unused(s.tables[t]) {
      forall d: nat | d < |s.descs| ensures s.descs[d].refcount == Count(s.tables - {t}, d) {
        EmptyTableCount(s.tables, t, s.tables[t], d);
      }
    } else {
      var fd :| 0 <= fd < MAX_FDS && s.tables[t][fd].desc.Some?;
      var d := s.tables[t][fd].desc.value;
      CountWithout(s.tables, t, fd, d);
    }
  }

  lemma CountWithout(tables: map<nat, Table>, t: nat, fd: nat, d: nat)
    requires t in tables && fd < |tables[t]| && tables[t][fd].desc == Some(d)
    ensures Count(tables - {t}, d) < Count(tables, d)
  {
    var without := Users(tables - {t}, d);
    assert without + {(t, fd)} <= Users(tables, d) && (t, fd) !in without;
    SubsetSize(without + {(t, fd)}, Users(tables, d));
  }

  lemma {:induction false} SubsetSize(a: set<(nat, nat)>, b: set<(nat, nat)>)
    requires a <= b
    ensures |a| <= |b|
  {
    if a != {} {
      var x :| x in a;
      SubsetSize(a - {x}, b - {x});
    }
  }

  lemma EndCounted(s: State, d: nat)
    requires Inv(s) && d < |s.descs| && s.descs[d].refcount > 0 && s.descs[d].kind.PipeEnd?
    ensures var p := s.descs[d].kind.pipe;
            p in s.pipes && if s.descs[d].kind.readEnd then s.pipes[p].readers > 0 else s.pipes[p].writers > 0
  {
    assert Gate(0);
    assert d in Ends(s.descs, s.descs[d].kind.pipe, s.descs[d].kind.readEnd);
  }
}
