/**
 Process groups and sessions (kernel/usermode/scheduler.c: fork, add_task, execve, exit,
 setpgid, setsid and the garbage collection of tasks).
 */
module Sessions {

  import opened Common

  datatype Proc = Proc(pid: int, pgid: int, sid: int, state: RunState, parent: nat)

  datatype Result = Ok(value: int) | ESRCH | EPERM

  const MAX_PID: int := 2147483647

  type Procs = map<nat, Proc>

  predicate Live(ps: Procs, t: nat) {
    t in ps && !ps[t].state.Deleted?
  }

  /** All live members of a group are in one session. */
  ghost predicate GroupsInSessions(ps: Procs) {
    forall t, u :: Live(ps, t) && Live(ps, u) && ps[t].pgid == ps[u].pgid ==> ps[t].sid == ps[u].sid
  }

  /** A group is named after a live task only if that task leads it. */
  ghost predicate GroupLeaders(ps: Procs) {
    forall t, u :: Live(ps, t) && Live(ps, u) && ps[u].pid == ps[t].pgid ==> ps[u].pgid == ps[u].pid
  }

  /** A session is named after a live task only if that task leads it, and then it leads its group too. */
  ghost predicate SessionLeaders(ps: Procs) {
    forall t, u :: Live(ps, t) && Live(ps, u) && ps[u].pid == ps[t].sid ==> ps[u].sid == ps[u].pid && ps[u].pgid == ps[u].pid
  }

  /** Every id in use has been handed out. */
  ghost predicate IdsIssued(ps: Procs, lastPid: int) {
    forall t :: t in ps ==> 1 <= ps[t].pid <= lastPid && 1 <= ps[t].pgid <= lastPid && 1 <= ps[t].sid <= lastPid
  }

  ghost predicate Inv(ps: Procs, lastPid: int) {
    GroupsInSessions(ps) && GroupLeaders(ps) && SessionLeaders(ps) && IdsIssued(ps, lastPid)
  }

  ghost predicate UniquePids(ps: Procs) {
    forall t, u :: Live(ps, t) && Live(ps, u) && ps[t].pid == ps[u].pid ==> t == u
  }

  // ---------------------------------------------------------------- steps on the table of tasks

  /** A child with a new pid, in its parent's group and session. */
  lemma BirthInv(ps: Procs, lastPid: int, parent: nat, child: nat, p: Proc)
    requires Inv(ps, lastPid) && UniquePids(ps) && Live(ps, parent) && child !in ps
    requires p.pid == lastPid + 1 && p.pgid == ps[parent].pgid && p.sid == ps[parent].sid
    ensures Inv(ps[child := p], lastPid + 1) && UniquePids(ps[child := p])
  {
    BirthGroups(ps, lastPid, parent, child, p);
    BirthIds(ps, lastPid, parent, child, p);
    BirthLeaders(ps, lastPid, parent, child, p);
  }

  lemma BirthGroups(ps: Procs, lastPid: int, parent: nat, child: nat, p: Proc)
    requires Inv(ps, lastPid) && Live(ps, parent) && child !in ps
    requires p.pid == lastPid + 1 && p.pgid == ps[parent].pgid && p.sid == ps[parent].sid
    ensures GroupsInSessions(ps[child := p])
  {
    var ps' := ps[child := p];
    forall t, u | Live(ps', t) && Live(ps', u) && ps'[t].pgid == ps'[u].pgid ensures ps'[t].sid == ps'[u].sid {
      var a, b := if t == child then parent else t, if u == child then parent else u;
      assert Live(ps, a) && Live(ps, b) && ps[a].pgid == ps[b].pgid;
    }
  }

  lemma BirthIds(ps: Procs, lastPid: int, parent: nat, child: nat, p: Proc)
    requires IdsIssued(ps, lastPid) && UniquePids(ps) && Live(ps, parent) && child !in ps
    requires p.pid == lastPid + 1 && p.pgid == ps[parent].pgid && p.sid == ps[parent].sid
    ensures IdsIssued(ps[child := p], lastPid + 1) && UniquePids(ps[child := p])
  {
    var ps' := ps[child := p];
    assert 1 <= ps[parent].pid <= lastPid;
    forall t, u | Live(ps', t) && Live(ps', u) && ps'[t].pid == ps'[u].pid ensures t == u {
      assert t != child ==> Live(ps, t) && ps[t].pid <= lastPid;
      assert u != child ==> Live(ps, u) && ps[u].pid <= lastPid;
    }
  }

  lemma BirthLeaders(ps: Procs, lastPid: int, parent: nat, child: nat, p: Proc)
    requires Inv(ps, lastPid) && Live(ps, parent) && child !in ps
    requires p.pid == lastPid + 1 && p.pgid == ps[parent].pgid && p.sid == ps[parent].sid
    ensures GroupLeaders(ps[child := p]) && SessionLeaders(ps[child := p])
  {
    assert forall u :: Live(ps[child := p], u) && u != child ==> Live(ps, u);
  }

  /** An exec'ed task stands beside its predecessor with the same ids ... */
  lemma TwinInv(ps: Procs, lastPid: int, t: nat, twin: nat, p: Proc)
    requires Inv(ps, lastPid) && Live(ps, t) && twin !in ps
    requires p.pid == ps[t].pid && p.pgid == ps[t].pgid && p.sid == ps[t].sid
    ensures Inv(ps[twin := p], lastPid)
  {
  }

  /** ... until the predecessor is deleted: run state and parent do not matter as long as nothing comes back to life. */
  lemma StateInv(ps: Procs, lastPid: int, t: nat, p: Proc)
    requires Inv(ps, lastPid) && t in ps && p == ps[t].(state := p.state, parent := p.parent) && (ps[t].state.Deleted? ==> p.state.Deleted?)
    ensures Inv(ps[t := p], lastPid)
  {
    assert forall u :: Live(ps[t := p], u) ==> Live(ps, u);
  }

  lemma StateUnique(ps: Procs, t: nat, p: Proc)
    requires UniquePids(ps) && t in ps && p.pid == ps[t].pid && (ps[t].state.Deleted? ==> p.state.Deleted?)
    ensures UniquePids(ps[t := p])
  {
    assert forall u :: Live(ps[t := p], u) ==> Live(ps, u);
  }

  lemma RemoveInv(ps: Procs, lastPid: int, t: nat)
    requires Inv(ps, lastPid) && UniquePids(ps)
    ensures Inv(ps - {t}, lastPid) && UniquePids(ps - {t})
  {
    assert forall u :: Live(ps - {t}, u) ==> Live(ps, u);
  }

  /** Joining an existing group of the same session. */
  lemma JoinInv(ps: Procs, lastPid: int, t: nat, member: nat)
    requires Inv(ps, lastPid) && Live(ps, t) && Live(ps, member) && ps[member].sid == ps[t].sid
    requires ps[t].pgid != ps[t].pid || ps[member].pgid == ps[t].pgid
    ensures Inv(ps[t := ps[t].(pgid := ps[member].pgid)], lastPid)
  {
  }

  /** Founding a group of one's own. */
  lemma FoundInv(ps: Procs, lastPid: int, t: nat)
    requires Inv(ps, lastPid) && UniquePids(ps) && Live(ps, t)
    ensures Inv(ps[t := ps[t].(pgid := ps[t].pid)], lastPid)
    ensures ps[t].pgid != ps[t].pid ==> forall u :: Live(ps, u) ==> ps[u].pgid != ps[t].pid
  {
  }

  /** Founding a session. */
  lemma SessionInv(ps: Procs, lastPid: int, t: nat)
    requires Inv(ps, lastPid) && UniquePids(ps) && Live(ps, t) && ps[t].pgid != ps[t].pid
    ensures Inv(ps[t := ps[t].(sid := ps[t].pid, pgid := ps[t].pid)], lastPid)
    ensures forall u :: Live(ps, u) ==> ps[u].pgid != ps[t].pid && ps[u].sid != ps[t].pid
  {
    NobodyThere(ps, t);
    SessionGroups(ps, t);
    SessionIds(ps, lastPid, t);
  }

  lemma SessionIds(ps: Procs, lastPid: int, t: nat)
    requires IdsIssued(ps, lastPid) && t in ps
    ensures IdsIssued(ps[t := ps[t].(sid := ps[t].pid, pgid := ps[t].pid)], lastPid)
  {
    assert 1 <= ps[t].pid <= lastPid;
  }

  /** No live task is in a group or session named after a task that leads none. */
  lemma NobodyThere(ps: Procs, t: nat)
    requires GroupLeaders(ps) && SessionLeaders(ps) && Live(ps, t) && ps[t].pgid != ps[t].pid
    ensures forall u :: Live(ps, u) ==> ps[u].pgid != ps[t].pid && ps[u].sid != ps[t].pid
  {
  }

  lemma SessionGroups(ps: Procs, t: nat)
    requires GroupsInSessions(ps) && GroupLeaders(ps) && SessionLeaders(ps) && UniquePids(ps) && Live(ps, t)
    requires forall u :: Live(ps, u) ==> ps[u].pgid != ps[t].pid && ps[u].sid != ps[t].pid
    ensures var ps' := ps[t := ps[t].(sid := ps[t].pid, pgid := ps[t].pid)];
            GroupsInSessions(ps') && GroupLeaders(ps') && SessionLeaders(ps')
  {
    var ps' := ps[t := ps[t].(sid := ps[t].pid, pgid := ps[t].pid)];
    assert forall u :: Live(ps', u) <==> Live(ps, u);
  }

  // ---------------------------------------------------------------- whole runs

  /** What the system calls do to the table of tasks. Task records are named by their addresses. */
  datatype Op =
    | Birth(parent: nat, child: nat)
    | Exec(task: nat, twin: nat)
    | Move(task: nat, state: RunState, parent: nat)
    | Remove(task: nat)
    | Join(task: nat, member: nat)
    | Found(task: nat)
    | NewSession(task: nat)

  datatype State = State(ps: Procs, lastPid: int)

  /** The conditions that the code checks, or that its callers provide, before each step. */
  predicate Enabled(s: State, op: Op) {
    match op
    case Birth(parent, child) => Live(s.ps, parent) && child !in s.ps
    case Exec(t, twin) => Live(s.ps, t) && twin !in s.ps
    case Move(t, state, _) => t in s.ps && (s.ps[t].state.Deleted? ==> state.Deleted?)
    case Remove(t) => t in s.ps && s.ps[t].state.Deleted?
    case Join(t, member) => Live(s.ps, t) && Live(s.ps, member) && s.ps[member].sid == s.ps[t].sid
                            && (s.ps[t].pgid != s.ps[t].pid || s.ps[member].pgid == s.ps[t].pgid)
    case Found(t) => Live(s.ps, t)
    case NewSession(t) => Live(s.ps, t) && s.ps[t].pgid != s.ps[t].pid
  }

  function Step(s: State, op: Op): State
    requires Enabled(s, op)
  {
    match op
    case Birth(parent, child) =>
      State(s.ps[child := Proc(s.lastPid + 1, s.ps[parent].pgid, s.ps[parent].sid, Ready, parent)], s.lastPid + 1)
    case Exec(t, twin) =>
      s.(ps := s.ps[twin := s.ps[t].(state := Ready)][t := s.ps[t].(state := Deleted)])
    case Move(t, state, parent) => s.(ps := s.ps[t := s.ps[t].(state := state, parent := parent)])
    case Remove(t) => s.(ps := s.ps - {t})
    case Join(t, member) => s.(ps := s.ps[t := s.ps[t].(pgid := s.ps[member].pgid)])
    case Found(t) => s.(ps := s.ps[t := s.ps[t].(pgid := s.ps[t].pid)])
    case NewSession(t) => s.(ps := s.ps[t := s.ps[t].(sid := s.ps[t].pid, pgid := s.ps[t].pid)])
  }

  ghost predicate Good(s: State) {
    forall z {:trigger Gate(z)} :: Gate(z) ==> Sound(s)
  }

  ghost predicate Sound(s: State) {
    Inv(s.ps, s.lastPid) && UniquePids(s.ps)
  }

  lemma Open(s: State)
    requires Good(s)
    ensures Inv(s.ps, s.lastPid) && UniquePids(s.ps)
  {
    assert Gate(0);
  }

  lemma StepGood(s: State, op: Op)
    requires Good(s) && Enabled(s, op)
    ensures Good(Step(s, op))
  {
    Open(s);
    match op {
      case Birth(parent, child) => BirthInv(s.ps, s.lastPid, parent, child, Step(s, op).ps[child]);
      case Exec(t, twin) =>
        var mid := s.ps[twin := s.ps[t].(state := Ready)];
        TwinInv(s.ps, s.lastPid, t, twin, mid[twin]);
        StateInv(mid, s.lastPid, t, s.ps[t].(state := Deleted));
        ExecUnique(s.ps, t, twin, mid[twin]);
      case Move(t, state, parent) =>
        StateInv(s.ps, s.lastPid, t, Step(s, op).ps[t]);
        StateUnique(s.ps, t, Step(s, op).ps[t]);
      case Remove(t) => RemoveInv(s.ps, s.lastPid, t);
      case Join(t, member) => JoinInv(s.ps, s.lastPid, t, member); StateUnique(s.ps, t, Step(s, op).ps[t]);
      case Found(t) => FoundInv(s.ps, s.lastPid, t); StateUnique(s.ps, t, Step(s, op).ps[t]);
      case NewSession(t) => SessionInv(s.ps, s.lastPid, t); StateUnique(s.ps, t, Step(s, op).ps[t]);
    }
  }

  lemma ExecUnique(ps: Procs, t: nat, twin: nat, p: Proc)
    requires UniquePids(ps) && Live(ps, t) && twin !in ps && p.pid == ps[t].pid && !p.state.Deleted?
    ensures UniquePids(ps[twin := p][t := ps[t].(state := Deleted)])
  {
    var after := ps[twin := p][t := ps[t].(state := Deleted)];
    assert forall u :: Live(after, u) ==> u == twin || (Live(ps, u) && u != t);
  }

  ghost predicate Run(states: seq<State>, ops: seq<Op>) {
    |states| == |ops| + 1
    && forall i :: 0 <= i < |ops| ==> Enabled(states[i], ops[i]) && states[i + 1] == Step(states[i], ops[i])
  }

  /** Groups never straddle sessions, in any state of any run. */
  lemma {:induction false} RunGood(states: seq<State>, ops: seq<Op>, n: nat)
    requires Run(states, ops) && Good(states[0]) && n <= |ops|
    ensures Good(states[n])
  {
    if n > 0 {
      RunGood(states, ops, n - 1);
      StepGood(states[n - 1], ops[n - 1]);
    }
  }

  predicate Leads(ps: Procs, t: nat, pid: int, sid: int) {
    Live(ps, t) && ps[t].pid == pid && ps[t].pgid == pid && ps[t].sid == sid
  }

  /** A group leader keeps its group and session over any run, through execve, until it is deleted. */
  lemma {:induction false} LeaderKeeps(states: seq<State>, ops: seq<Op>, n: nat, t: nat)
    requires Run(states, ops) && Good(states[0]) && n <= |ops|
    requires Live(states[0].ps, t) && states[0].ps[t].pgid == states[0].ps[t].pid
    ensures var p := states[0].ps[t];
            (exists u :: Leads(states[n].ps, u, p.pid, p.sid)) || forall u :: Live(states[n].ps, u) ==> states[n].ps[u].pid != p.pid
  {
    var p := states[0].ps[t];
    if n == 0 {
      assert Leads(states[0].ps, t, p.pid, p.sid);
    } else {
      LeaderKeeps(states, ops, n - 1, t);
      RunGood(states, ops, n - 1);
      Open(states[0]);
      var before, pid, sid := states[n - 1].ps, p.pid, p.sid;
      if u :| Leads(before, u, pid, sid) {
        LeaderStep(states[n - 1], ops[n - 1], u, p.pid, p.sid);
      } else {
        PidsIssued(states, ops, n - 1);
        NobodyStep(states[n - 1], ops[n - 1], p.pid);
      }
    }
  }

  lemma {:induction false} PidsIssued(states: seq<State>, ops: seq<Op>, n: nat)
    requires Run(states, ops) && n <= |ops|
    ensures states[0].lastPid <= states[n].lastPid
  {
    if n > 0 { PidsIssued(states, ops, n - 1); }
  }

  lemma LeaderStep(s: State, op: Op, u: nat, pid: int, sid: int)
    requires Good(s) && Enabled(s, op) && Leads(s.ps, u, pid, sid)
    ensures (exists w :: Leads(Step(s, op).ps, w, pid, sid)) || forall w :: Live(Step(s, op).ps, w) ==> Step(s, op).ps[w].pid != pid
  {
    Open(s);
    var ps' := Step(s, op).ps;
    if op.Exec? && op.task == u {
      assert Leads(ps', op.twin, pid, sid);
    } else if Live(ps', u) {
      assert Leads(ps', u, pid, sid);
    } else {
      forall w | Live(ps', w) ensures ps'[w].pid != pid {
        assert w != u;
      }
    }
  }

  lemma NobodyStep(s: State, op: Op, pid: int)
    requires Enabled(s, op) && pid <= s.lastPid && forall w :: Live(s.ps, w) ==> s.ps[w].pid != pid
    ensures forall w :: Live(Step(s, op).ps, w) ==> Step(s, op).ps[w].pid != pid
  {
    var ps' := Step(s, op).ps;
    forall w | Live(ps', w) ensures ps'[w].pid != pid {
      if op.Exec? && w == op.twin {
        assert Live(s.ps, op.task);
      } else if !(op.Birth? && w == op.child) {
        assert Live(s.ps, w);
      }
    }
  }

  // ---------------------------------------------------------------- the system calls

  lemma LinkedIn(ring: seq<nat>, i: nat, t: nat)
    requires Distinct(ring) && i < |ring| && t !in ring
    ensures Distinct(ring[..i + 1] + [t] + ring[i + 1..])
    ensures forall u :: u in ring[..i + 1] + [t] + ring[i + 1..] <==> u in ring || u == t
  {
    var after := ring[..i + 1] + [t] + ring[i + 1..];
    assert ring == ring[..i + 1] + ring[i + 1..];
    assert forall j :: 0 <= j < |after| ==> after[j] == if j <= i then ring[j] else if j == i + 1 then t else ring[j - 1];
  }

  function Heir(p: Proc, from: nat, to: nat): Proc {
    if p.parent == from then p.(parent := to) else p
  }

  /** All children of one task become children of another. */
  function Handed(ps: Procs, from: nat, to: nat): Procs {
    map t | t in ps :: Heir(ps[t], from, to)
  }

  lemma HandedGood(s: State, from: nat, to: nat)
    requires Good(s)
    ensures Good(s.(ps := Handed(s.ps, from, to)))
  {
    Open(s);
    var ps, ps' := s.ps, Handed(s.ps, from, to);
    assert forall t :: Live(ps', t) <==> Live(ps, t);
    assert forall t :: t in ps ==> ps'[t].pid == ps[t].pid && ps'[t].pgid == ps[t].pgid && ps'[t].sid == ps[t].sid;
  }

  function Replaced(ps: Procs, t: nat, twin: nat): Procs
    requires t in ps
  {
    ps[twin := ps[t].(state := Ready)][t := ps[t].(state := Deleted)]
  }

  lemma ExecGood(s: State, t: nat, twin: nat)
    requires Good(s) && Live(s.ps, t) && twin !in s.ps
    ensures Good(s.(ps := Handed(Replaced(s.ps, t, twin), t, twin)))
    ensures Replaced(s.ps, t, twin) == Step(s, Exec(t, twin)).ps
  {
    StepGood(s, Exec(t, twin));
    HandedGood(s.(ps := Replaced(s.ps, t, twin)), t, twin);
  }

  function Zombied(ps: Procs, t: nat): Procs
    requires t in ps
  {
    ps[t := ps[t].(state := Zombie)]
  }

  lemma ZombieGood(s: State, t: nat)
    requires Good(s) && Live(s.ps, t)
    ensures Good(s.(ps := Handed(Zombied(s.ps, t), t, 0)))
    ensures Zombied(s.ps, t) == Step(s, Move(t, Zombie, s.ps[t].parent)).ps
  {
    StepGood(s, Move(t, Zombie, s.ps[t].parent));
    HandedGood(s.(ps := Zombied(s.ps, t)), t, 0);
  }

  /** What `exit` leaves, record by record. */
  lemma ExitRecords(ps: Procs, t: nat)
    requires t in ps && t != 0
    ensures var after := Handed(Zombied(ps, t), t, 0);
      && after.Keys == ps.Keys && after[t].state.Zombie?
      && forall u :: u in after ==>
           after[u] == ps[u].(parent := if ps[u].parent == t then 0 else ps[u].parent, state := if u == t then Zombie else ps[u].state)
  {
  }

  /** What `execve` leaves, record by record. */
  lemma ExecRecords(ps: Procs, t: nat, twin: nat)
    requires t in ps && twin !in ps
    ensures var after := Handed(Replaced(ps, t, twin), t, twin);
      && after.Keys == ps.Keys + {twin} && after[t].state.Deleted? && after[twin].state.Ready?
      && after[twin].pid == ps[t].pid && after[twin].pgid == ps[t].pgid && after[twin].sid == ps[t].sid
      && (forall u :: u in ps && u != t ==> after[u] == ps[u].(parent := if ps[u].parent == t then twin else ps[u].parent))
      && forall u :: u in after ==> after[u].parent != t
  {
  }

  /** The task `setpgid` is about: the caller or one of its live children. */
  ghost predicate IsTarget(ps: Procs, current: nat, t: nat, pid: int)
    requires Live(ps, current)
  {
    if pid == 0 || pid == ps[current].pid then t == current
    else Live(ps, t) && ps[t].parent == current && ps[t].pid == pid
  }

  function GroupFor(ps: Procs, t: nat, pgid: int): (g: int)
    requires t in ps
    ensures pgid == 0 ==> g == ps[t].pid
    ensures pgid != 0 ==> g == pgid
  {
    if pgid == 0 then ps[t].pid else pgid
  }

  function Entered(ps: Procs, t: nat, pgid: int): Proc
    requires t in ps
  {
    ps[t].(pgid := GroupFor(ps, t, pgid))
  }

  ghost predicate InGroup(ps: Procs, u: nat, pgid: int) {
    Live(ps, u) && ps[u].pgid == pgid
  }

  /** The target is in the caller's session, keeps its group if it leads one, and the group is its own or a live one of its session. */
  ghost predicate MayEnter(ps: Procs, current: nat, t: nat, pgid: int)
    requires Live(ps, current) && Live(ps, t)
  {
    var g := GroupFor(ps, t, pgid);
    && ps[t].sid == ps[current].sid
    && (ps[t].pgid == ps[t].pid ==> g == ps[t].pgid)
    && (g == ps[t].pid || exists u :: InGroup(ps, u, g) && ps[u].sid == ps[t].sid)
  }

  ghost predicate Unknown(ps: Procs, current: nat, t: nat, pgid: int)
    requires Live(ps, current) && Live(ps, t)
  {
    var g := GroupFor(ps, t, pgid);
    ps[t].sid == ps[current].sid && g != ps[t].pid && forall u :: !InGroup(ps, u, g)
  }

  /** A group that `setpgid` founds was empty before, a group that it joins lies in one session. */
  lemma EnteredGroup(ps: Procs, lastPid: int, current: nat, t: nat, pgid: int)
    requires Inv(ps, lastPid) && UniquePids(ps) && Live(ps, current) && Live(ps, t) && MayEnter(ps, current, t, pgid)
    ensures GroupFor(ps, t, pgid) == ps[t].pid && ps[t].pgid != ps[t].pid ==> forall u :: !InGroup(ps, u, ps[t].pid)
    ensures forall u :: InGroup(ps, u, GroupFor(ps, t, pgid)) ==> ps[u].sid == ps[current].sid
  {
    var g := GroupFor(ps, t, pgid);
    if g == ps[t].pid && ps[t].pgid != ps[t].pid {
      FoundInv(ps, lastPid, t);
    }
  }

  lemma StrangersGroup(ps: Procs, lastPid: int, current: nat, t: nat, pgid: int, u: nat)
    requires Good(State(ps, lastPid)) && Live(ps, current) && Live(ps, t) && InGroup(ps, u, GroupFor(ps, t, pgid))
    ensures !Unknown(ps, current, t, pgid)
    ensures ps[u].sid != ps[t].sid && ps[t].pid != GroupFor(ps, t, pgid) ==> !MayEnter(ps, current, t, pgid)
  {
    Open(State(ps, lastPid));
  }

  lemma EnterGood(s: State, current: nat, t: nat, pgid: int)
    requires Good(s) && Live(s.ps, current) && Live(s.ps, t) && MayEnter(s.ps, current, t, pgid)
    ensures Good(s.(ps := s.ps[t := Entered(s.ps, t, pgid)]))
  {
    var ps, g, sid := s.ps, GroupFor(s.ps, t, pgid), s.ps[t].sid;
    if g == ps[t].pid {
      StepGood(s, Found(t));
    } else if u :| InGroup(ps, u, g) && ps[u].sid == sid {
      StepGood(s, Join(t, u));
    }
  }

  /** The ring of tasks from `init_task` on, in `next` order, and the task records. */
  class Tasks {
    var ps: Procs
    var ring: seq<nat>
    var current: nat
    var lastPid: int

    ghost function Now(): State
      reads this
    {
      State(ps, lastPid)
    }

    ghost predicate Valid()
      reads this
    {
      && Good(Now()) && Live(ps, current) && current in ring
      && Distinct(ring) && (forall t :: t in ring <==> t in ps)
    }

    /** `init_task` alone. */
    constructor ()
      ensures Valid() && ps == map[0 := Proc(1, 1, 1, Ready, 0)] && lastPid == 1
    {
      ps, ring, current, lastPid := map[0 := Proc(1, 1, 1, Ready, 0)], [0], 0, 1;
    }

    /** A task record enters the ring behind `before`. */
    method Link(before: nat, t: nat, p: Proc)
      requires before in ring && t !in ring && Distinct(ring) && forall u :: u in ring <==> u in ps
      modifies this`ps, this`ring
      ensures ps == old(ps)[t := p] && Distinct(ring) && forall u :: u in ring <==> u in ps
    {
      var i := 0;
      while ring[i] != before
        invariant i < |ring| && before !in ring[..i]
        decreases |ring| - i
      {
        i := i + 1;
      }
      LinkedIn(ring, i, t);
      ring := ring[..i + 1] + [t] + ring[i + 1..];
      ps := ps[t := p];
    }

    /** `fork`; None is the panic when the ids are used up. */
    method Fork(child: nat) returns (r: Option<int>)
      requires Valid() && child !in ps
      modifies this`ps, this`ring, this`lastPid
      ensures Valid()
      ensures r.None? <==> old(lastPid) == MAX_PID
      ensures r.None? ==> Now() == old(Now())
      ensures r.Some? ==> Now() == Step(old(Now()), Birth(current, child)) && r.value == lastPid
      ensures r.Some? ==> r.value == old(lastPid) + 1
                          && ps == old(ps)[child := Proc(r.value, old(ps)[current].pgid, old(ps)[current].sid, Ready, current)]
      ensures r.Some? ==> forall t :: t in old(ps) ==> old(ps)[t].pid != r.value
    {
      if lastPid == MAX_PID { return None; }
      StepGood(Now(), Birth(current, child));
      Open(Now());
      Link(current, child, ps[current].(pid := lastPid + 1, state := Ready, parent := current));
      lastPid := lastPid + 1;
      r := Some(lastPid);
    }

    /** A successful `execve` of a task other than `init_task`: the new record takes over the ids and the children. */
    method Execve(twin: nat)
      requires Valid() && twin !in ps && ps[current].parent in ps
      modifies this`ps, this`ring, this`current
      ensures Valid() && lastPid == old(lastPid) && current == twin
      ensures ps == Handed(Replaced(old(ps), old(current), twin), old(current), twin)
      ensures ps.Keys == old(ps).Keys + {twin} && ps[old(current)].state.Deleted?
      ensures var p, was := ps[twin], old(ps)[old(current)]; p.pid == was.pid && p.pgid == was.pgid && p.sid == was.sid && p.state.Ready?
      ensures forall t :: t in old(ps) && t != old(current) ==>
        ps[t] == old(ps)[t].(parent := if old(ps)[t].parent == old(current) then twin else old(ps)[t].parent)
      ensures forall t :: t in ps ==> ps[t].parent != old(current)
    {
      var was := current;
      ExecGood(Now(), was, twin);
      ExecRecords(ps, was, twin);
      Link(ps[was].parent, twin, ps[was].(state := Ready));
      ps := ps[was := ps[was].(state := Deleted)];
      Reparent(was, twin);
      current := twin;
    }

    /** `exit`: a zombie keeps its ids until its parent has waited for it; its children go to `init_task`, record 0. */
    method Exit()
      requires Valid() && 0 in ps && current != 0
      modifies this`ps
      ensures Valid() && lastPid == old(lastPid)
      ensures ps == Handed(Zombied(old(ps), current), current, 0)
      ensures ps.Keys == old(ps).Keys && ps[current].state.Zombie?
      ensures forall t :: t in ps ==>
        ps[t] == old(ps)[t].(parent := if old(ps)[t].parent == current then 0 else old(ps)[t].parent, state := if t == current then Zombie else old(ps)[t].state)
    {
      ZombieGood(Now(), current);
      ExitRecords(ps, current);
      ps := ps[current := ps[current].(state := Zombie)];
      Reparent(current, 0);
    }

    /** The loop that gives the children of one task to another. */
    method Reparent(from: nat, to: nat)
      requires Distinct(ring) && forall t :: t in ring <==> t in ps
      modifies this`ps
      ensures ps == Handed(old(ps), from, to)
    {
      var i := 0;
      while i < |ring|
        invariant i <= |ring| && ps.Keys == old(ps).Keys
        invariant forall t :: t in ps ==> ps[t] == if t in ring[..i] then Heir(old(ps)[t], from, to) else old(ps)[t]
      {
        var t := ring[i];
        assert t !in ring[..i];
        assert ring[..i + 1] == ring[..i] + [t];
        if ps[t].parent == from { ps := ps[t := ps[t].(parent := to)]; }
        i := i + 1;
      }
      assert ring[..|ring|] == ring;
    }

    /** `setpgid`'s search for the group among the tasks of the ring. */
    method FindGroup(pgid: int) returns (r: Option<nat>)
      requires Valid()
      ensures r.Some? ==> Live(ps, r.value) && ps[r.value].pgid == pgid
      ensures r.None? ==> forall t :: Live(ps, t) ==> ps[t].pgid != pgid
    {
      var i := 0;
      while i < |ring|
        invariant i <= |ring| && forall j :: 0 <= j < i ==> !(Live(ps, ring[j]) && ps[ring[j]].pgid == pgid)
      {
        if ps[ring[i]].pgid == pgid && !ps[ring[i]].state.Deleted? { return Some(ring[i]); }
        i := i + 1;
      }
      r := None;
    }

    /** `get_child`. */
    method GetChild(parent: nat, pid: int) returns (r: Option<nat>)
      requires Valid()
      ensures r.Some? ==> Live(ps, r.value) && ps[r.value].pid == pid && ps[r.value].parent == parent
      ensures r.None? ==> forall t :: Live(ps, t) && ps[t].parent == parent ==> ps[t].pid != pid
    {
      var i := 0;
      while i < |ring|
        invariant i <= |ring|
        invariant forall j :: 0 <= j < i ==> !(Live(ps, ring[j]) && ps[ring[j]].pid == pid && ps[ring[j]].parent == parent)
      {
        var p := ps[ring[i]];
        if p.parent == parent && !p.state.Deleted? && p.pid == pid { return Some(ring[i]); }
        i := i + 1;
      }
      r := None;
    }

    /** The first lookup of `setpgid`: the caller or one of its live children. */
    method FindTarget(pid: int) returns (r: Option<nat>)
      requires Valid()
      ensures r.Some? ==> IsTarget(ps, current, r.value, pid)
      ensures r.None? ==> forall t :: !IsTarget(ps, current, t, pid)
      ensures pid == 0 ==> r == Some(current)
    {
      if pid != 0 && pid != ps[current].pid {
        r := GetChild(current, pid);
      } else {
        r := Some(current);
      }
    }

    /**
     `setpgid` on the table: it succeeds exactly when the target may enter the group, then changes
     that one field; otherwise nothing changes and the reason given is the true one.
     */
    method SetPgid(pid: int, pgid: int) returns (r: Result, ghost target: Option<nat>)
      requires Valid()
      modifies this`ps
      ensures Valid()
      ensures target.Some? ==> IsTarget(old(ps), current, target.value, pid)
      ensures target.None? ==> forall t :: !IsTarget(old(ps), current, t, pid)
      ensures r.Ok? <==> target.Some? && MayEnter(old(ps), current, target.value, pgid)
      ensures r == ESRCH <==> target.None? || Unknown(old(ps), current, target.value, pgid)
      ensures ps == if r.Ok? then old(ps)[target.value := Entered(old(ps), target.value, pgid)] else old(ps)
      ensures pid == 0 ==> target == Some(current)
      ensures r.Ok? ==> target.Some? && target.value in old(ps) && ps[target.value].pgid == if pgid == 0 then old(ps)[target.value].pid else pgid
      ensures target.Some? && old(ps)[target.value].sid != old(ps)[current].sid ==> r == EPERM
      ensures pid == 0 && pgid == 0 ==> r.Ok? && ps[current].pgid == ps[current].pid
    {
      var t := FindTarget(pid);
      target := t;
      if t.None? { return ESRCH, t; }
      var p := ps[t.value];
      var group := if pgid == 0 then p.pid else pgid;
      if p.sid != ps[current].sid { return EPERM, t; }
      if p.pid != group {
        var found := FindGroup(group);
        if found.None? {
          return ESRCH, t;
        }
        StrangersGroup(ps, lastPid, current, t.value, pgid, found.value);
        if ps[found.value].sid != p.sid { return EPERM, t; }
      }
      if p.pgid == p.pid && group != p.pgid { return EPERM, t; }
      EnterGood(Now(), current, t.value, pgid);
      ps := ps[t.value := p.(pgid := group)];
      r := Ok(0);
    }

    /** `setsid`: refused to group leaders; otherwise a session and group that nobody was in. */
    method SetSid() returns (r: Result)
      requires Valid()
      modifies this`ps
      ensures Valid()
      ensures r == if old(ps)[current].pgid == old(ps)[current].pid then EPERM else Ok(old(ps)[current].pid)
      ensures !r.Ok? ==> ps == old(ps)
      ensures r.Ok? ==> Now() == Step(old(Now()), NewSession(current))
      ensures r.Ok? ==> ps[current].pgid == ps[current].sid == ps[current].pid == old(ps)[current].pid
                        && forall t :: t in old(ps) && t != current ==> t in ps && ps[t] == old(ps)[t]
      ensures r.Ok? ==> forall u :: Live(old(ps), u) ==> old(ps)[u].pgid != r.value && old(ps)[u].sid != r.value
    {
      if ps[current].pgid == ps[current].pid { return EPERM; }
      StepGood(Now(), NewSession(current));
      Open(Now());
      SessionInv(ps, lastPid, current);
      ps := ps[current := ps[current].(sid := ps[current].pid, pgid := ps[current].pid)];
      r := Ok(ps[current].sid);
    }
  }
}
