/**
 The ring of tasks: choosing the next one, linking in a new one, unlinking deleted ones
 (kernel/usermode/scheduler.c: get_next_task, fork, gc_tasks).
 */
module RoundRobin {

  import opened Common

  // ---------------------------------------------------------------- positions on a ring of n tasks

  function Succ(i: nat, n: nat): (r: nat)
    requires i < n
    ensures r < n
  {
    if i + 1 == n then 0 else i + 1
  }

  /** The position k steps on, for at most one round. */
  function Ahead(i: nat, k: nat, n: nat): (r: nat)
    requires i < n && k <= n
    ensures r < n
  {
    if i + k < n then i + k else i + k - n
  }

  /** The number of steps, from 1 to n, that lead from i to j. */
  function Distance(i: nat, j: nat, n: nat): (r: nat)
    requires i < n && j < n
    ensures 1 <= r <= n && Ahead(i, r, n) == j
  {
    if i < j then j - i else j + n - i
  }

  /** The first position after rr, in ring order and rr itself last, at which a task is ready. */
  ghost predicate IsNext(ready: seq<bool>, rr: nat, r: Option<nat>)
    requires rr < |ready|
  {
    match r
    case Some(j) => j < |ready| && ready[j]
                    && forall k :: 1 <= k < Distance(rr, j, |ready|) ==> !ready[Ahead(rr, k, |ready|)]
    case None => forall j :: 0 <= j < |ready| ==> !ready[j]
  }

  /** There is only one such choice. */
  lemma NextUnique(ready: seq<bool>, rr: nat, a: Option<nat>, b: Option<nat>)
    requires rr < |ready| && IsNext(ready, rr, a) && IsNext(ready, rr, b)
    ensures a == b
  {
    if a.Some? && b.Some? {
      var n := |ready|;
      assert Ahead(rr, Distance(rr, a.value, n), n) == a.value;
      assert Ahead(rr, Distance(rr, b.value, n), n) == b.value;
    }
  }

  /** Nobody on the way to the choice is ready: behind rr up to it, over the end of the ring if need be. */
  lemma NobodyBetween(ready: seq<bool>, rr: nat, chosen: nat)
    requires rr < |ready| && IsNext(ready, rr, Some(chosen))
    ensures rr < chosen ==> forall j :: rr < j < chosen ==> !ready[j]
    ensures chosen <= rr ==> forall j :: 0 <= j < chosen || rr < j < |ready| ==> !ready[j]
  {
    forall j | 0 <= j < |ready| && (if rr < chosen then rr < j < chosen else j < chosen || rr < j) ensures !ready[j] {
      assert Ahead(rr, Distance(rr, j, |ready|), |ready|) == j;
    }
  }

  // ---------------------------------------------------------------- bounded waiting

  /** Successive calls on an unchanged ring; all run states may change between calls. */
  ghost predicate Calls(ready: seq<seq<bool>>, rr: seq<nat>, n: nat) {
    && |rr| == |ready| + 1
    && (forall i :: 0 <= i < |rr| ==> rr[i] < n)
    && (forall i :: 0 <= i < |ready| ==> |ready[i]| == n)
    && forall i :: 0 <= i < |ready| ==> IsNext(ready[i], rr[i], Some(rr[i + 1]))
  }

  /** Unless it is chosen, a ready task comes strictly closer. */
  lemma Closer(ready: seq<bool>, rr: nat, chosen: nat, t: nat)
    requires rr < |ready| && t < |ready| && ready[t] && IsNext(ready, rr, Some(chosen)) && chosen != t
    ensures Distance(chosen, t, |ready|) < Distance(rr, t, |ready|)
  {
    var n := |ready|;
    assert Ahead(rr, Distance(rr, t, n), n) == t;
  }

  /** A task that stays ready is chosen within as many calls as its distance, at most n. */
  lemma {:induction false} BoundedWaiting(ready: seq<seq<bool>>, rr: seq<nat>, n: nat, t: nat) returns (i: nat)
    requires Calls(ready, rr, n) && t < n && (forall j :: 0 <= j < |ready| ==> ready[j][t])
    requires |ready| >= Distance(rr[0], t, n)
    ensures i < Distance(rr[0], t, n) <= n && rr[i + 1] == t
    decreases Distance(rr[0], t, n)
  {
    if rr[1] == t { return 0; }
    Closer(ready[0], rr[0], rr[1], t);
    i := BoundedWaiting(ready[1..], rr[1..], n, t);
    i := i + 1;
  }

  // ---------------------------------------------------------------- the linked ring

  class Task {
    var state: RunState
    var next: Task

    /** A task that is alone on its ring, as `init_task` is at first. */
    constructor ()
      ensures state == Ready && next == this
    {
      state, next := Ready, this;
    }

    /** A task record that is about to be linked in behind `before`. */
    constructor Behind(before: Task)
      ensures state == Ready && next == before.next
    {
      state, next := Ready, before.next;
    }
  }

  ghost predicate Linked(ring: seq<Task>)
    reads ring
  {
    forall i :: 0 <= i < |ring| ==> ring[i].next == ring[Succ(i, |ring|)]
  }

  /** A ring without repetitions, each task pointing to the one behind it. */
  ghost predicate Woven(ring: seq<Task>)
    reads ring
  {
    forall z {:trigger Gate(z)} :: Gate(z) ==> Distinct(ring) && Linked(ring)
  }

  lemma Pointer(ring: seq<Task>, i: nat)
    requires Woven(ring) && i < |ring|
    ensures ring[i].next == ring[Succ(i, |ring|)]
    ensures forall j :: 0 <= j < |ring| && ring[j] == ring[i] ==> i == j
  {
    assert Gate(0);
  }

  ghost function ReadyOn(ring: seq<Task>): (r: seq<bool>)
    reads ring
    ensures |r| == |ring|
  {
    seq(|ring|, i requires 0 <= i < |ring| reads ring => ring[i].state.Ready?)
  }

  lemma ReadyAt(ring: seq<Task>)
    ensures forall i :: 0 <= i < |ring| ==> (ReadyOn(ring)[i] <==> ring[i].state == Ready)
  {
  }

  ghost function DeletedOn(ring: seq<Task>): set<Task>
    reads ring
  {
    set t | t in ring && t.state.Deleted?
  }

  /** The tasks of the ring that are not in `dead`, in order. */
  ghost function Without(ring: seq<Task>, dead: set<Task>): (r: seq<Task>) {
    if ring == [] then []
    else Without(ring[..|ring| - 1], dead) + (if ring[|ring| - 1] in dead then [] else [ring[|ring| - 1]])
  }

  /** The tasks that stay keep their order. */
  lemma {:induction false} WithoutJoins(a: seq<Task>, b: seq<Task>, dead: set<Task>)
    ensures Without(a + b, dead) == Without(a, dead) + Without(b, dead)
    decreases |b|
  {
    if b == [] {
      assert a + b == a;
    } else {
      assert (a + b)[..|a + b| - 1] == a + b[..|b| - 1];
      WithoutJoins(a, b[..|b| - 1], dead);
    }
  }

  lemma {:induction false} WithoutExactly(ring: seq<Task>, dead: set<Task>)
    requires Distinct(ring)
    ensures Distinct(Without(ring, dead))
    ensures forall t :: t in Without(ring, dead) <==> t in ring && t !in dead
  {
    if ring != [] {
      var front := ring[..|ring| - 1];
      WithoutExactly(front, dead);
      assert ring == front + [ring[|ring| - 1]];
      assert ring[|ring| - 1] !in front;
    }
  }

  /** Once a task's predecessor points past it, the ring without it is linked. */
  lemma Unlink(was: seq<Task>, m: nat)
    requires Distinct(was) && 1 <= m < |was|
    requires forall j :: 0 <= j < |was| && j != m - 1 ==> was[j].next == was[Succ(j, |was|)]
    requires was[m - 1].next == was[m].next
    ensures Woven(was[..m] + was[m + 1..])
  {
    var now := was[..m] + was[m + 1..];
    forall i | 0 <= i < |now| ensures now[i].next == now[Succ(i, |now|)] {
      assert now[i] == if i < m then was[i] else was[i + 1];
    }
  }

  /** The opposite: a task whose predecessor points to it, and which points to the old successor. */
  lemma Insert(was: seq<Task>, i: nat, t: Task)
    requires Distinct(was) && i < |was| && t !in was
    requires forall j :: 0 <= j < |was| && j != i ==> was[j].next == was[Succ(j, |was|)]
    requires was[i].next == t && t.next == was[Succ(i, |was|)]
    ensures Woven(was[..i + 1] + [t] + was[i + 1..])
  {
    var now := was[..i + 1] + [t] + was[i + 1..];
    assert forall j :: 0 <= j < |now| ==> now[j] == if j <= i then was[j] else if j == i + 1 then t else was[j - 1];
    forall j | 0 <= j < |now| ensures now[j].next == now[Succ(j, |now|)] {
      if j != i + 1 { assert now[j] == was[if j <= i then j else j - 1]; }
    }
  }

  lemma Split(all: seq<Task>, dead: set<Task>, kept: seq<Task>, i: nat)
    requires i < |all| && kept == Without(all[..i], dead)
    ensures Without(all[..i + 1], dead) == if all[i] in dead then kept else kept + [all[i]]
    ensures (kept + all[i..])[|kept|] == all[i]
    ensures (kept + all[i..])[..|kept|] + (kept + all[i..])[|kept| + 1..] == kept + all[i + 1..]
    ensures kept + all[i..] == (kept + [all[i]]) + all[i + 1..]
  {
    assert all[..i + 1][..i] == all[..i];
  }

  lemma {:induction false} InAll(all: seq<Task>, dead: set<Task>, i: nat, kept: seq<Task>)
    requires i <= |all| && kept == Without(all[..i], dead)
    ensures forall j :: 0 <= j < |kept| ==> kept[j] in all
  {
    if i > 0 {
      assert all[..i][..i - 1] == all[..i - 1];
      InAll(all, dead, i - 1, Without(all[..i - 1], dead));
    }
  }

  class Scheduler {
    const init: Task
    var rr: Task
    ghost var ring: seq<Task>
    ghost var at: nat

    ghost predicate Valid()
      reads this, ring
    {
      && Woven(ring)
      && at < |ring| && ring[at] == rr && ring[0] == init
    }

    constructor ()
      ensures Valid() && fresh(init) && ring == [init] && rr == init
    {
      var only := new Task();
      init, rr, ring, at := only, only, [only], 0;
      assert Linked([only]);
    }

    /** `get_next_task`. */
    method GetNextTask() returns (r: Option<Task>)
      requires Valid()
      modifies this`rr, this`at
      ensures Valid() && ring == old(ring)
      ensures r.Some? ==> r.value == rr && IsNext(ReadyOn(ring), old(at), Some(at))
      ensures r.None? ==> rr == old(rr) && IsNext(ReadyOn(ring), old(at), None)
      ensures r.Some? ==> r.value.state == Ready && ring[at] == r.value
      ensures r.Some? && old(at) < at ==> forall j :: old(at) < j < at ==> ring[j].state != Ready
      ensures r.Some? && at <= old(at) ==> forall j :: 0 <= j < at || old(at) < j < |ring| ==> ring[j].state != Ready
      ensures r.None? ==> forall t :: t in ring ==> t.state != Ready
    {
      ghost var k, n := 0, |ring|;
      ghost var start := at;
      var first := rr;
      while true
        invariant Valid() && ring == old(ring) && k < n && at == Ahead(start, k, n)
        invariant forall j :: 1 <= j <= k ==> !ring[Ahead(start, j, n)].state.Ready?
        decreases n - k
      {
        Pointer(ring, at);
        rr := rr.next;
        at := Succ(at, n);
        k := k + 1;
        if rr.state == Ready {
          assert k == Distance(start, at, n);
          NobodyBetween(ReadyOn(ring), start, at);
          ReadyAt(ring);
          return Some(rr);
        }
        if rr == first {
          Pointer(ring, at);
          assert at == start;
          assert k == n;
          forall j | 0 <= j < n ensures !ring[j].state.Ready? {
            assert Ahead(start, Distance(start, j, n), n) == j;
          }
          return None;
        }
        Pointer(ring, at);
        assert at != start;
      }
    }

    /** `fork` and `add_task`: a new task goes directly behind a given one. */
    method LinkBehind(before: Task, ghost i: nat) returns (t: Task)
      requires Valid() && i < |ring| && ring[i] == before
      modifies this`ring, this`at, before`next
      ensures Valid() && fresh(t) && rr == old(rr) && t.state == Ready
      ensures ring == old(ring)[..i + 1] + [t] + old(ring)[i + 1..]
    {
      Pointer(ring, i);
      t := new Task.Behind(before);
      assert Gate(0);
      before.next := t;
      Insert(ring, i, t);
      ring := ring[..i + 1] + [t] + ring[i + 1..];
      at := if at <= i then at else at + 1;
    }

    /** One unlinking in `gc_tasks`. */
    method Cut(p: Task, t: Task, ghost m: nat)
      requires Valid() && 1 <= m < |ring| && ring[m] == t && ring[m - 1] == p
      modifies this`rr, this`ring, this`at, p`next
      ensures Valid() && ring == old(ring)[..m] + old(ring)[m + 1..]
      ensures rr == if old(rr) == t then old(t.next) else old(rr)
    {
      Pointer(ring, m);
      assert Gate(0);
      p.next := t.next;
      Unlink(ring, m);
      ring := ring[..m] + ring[m + 1..];
      if rr == t {
        rr := t.next;
        at := if m == |ring| then 0 else m;
      } else {
        at := if at < m then at else at - 1;
      }
    }

    /** `gc_tasks` has looked at i tasks and stands between `p` and `t`. */
    ghost predicate Scanned(all: seq<Task>, dead: set<Task>, kept: seq<Task>, i: nat, p: Task, t: Task)
      reads this, ring
    {
      && Valid() && 1 <= i <= |all| && 1 <= |kept| && kept == Without(all[..i], dead)
      && ring == kept + all[i..]
      && p == kept[|kept| - 1] && t == ring[if i == |all| then 0 else |kept|]
    }

    /** One round of its loop. */
    method Visit(p: Task, t: Task, ghost all: seq<Task>, ghost dead: set<Task>, ghost kept: seq<Task>, ghost i: nat)
      returns (p': Task, t': Task, ghost kept': seq<Task>)
      requires Scanned(all, dead, kept, i, p, t) && i < |all| && (t.state.Deleted? <==> t in dead)
      modifies this`rr, this`ring, this`at, p`next
      ensures Scanned(all, dead, kept', i + 1, p', t')
      ensures old(rr) !in dead ==> rr == old(rr)
    {
      Split(all, dead, kept, i);
      Pointer(ring, |kept|);
      if t.state == Deleted {
        t' := t.next;
        Cut(p, t, |kept|);
        p', kept' := p, kept;
      } else {
        p', kept' := t, kept + [t];
        t' := t.next;
      }
    }

    /**
     `gc_tasks` unlinks exactly the deleted tasks (`init_task` is never one). The last chosen task
     stays the last chosen one unless it goes itself; then the pointer moves on to a task of the new ring.
     */
    method Collect()
      requires Valid() && !init.state.Deleted?
      modifies this, ring
      ensures Valid()
      ensures ring == old(Without(ring, DeletedOn(ring)))
      ensures forall t :: t in ring <==> t in old(ring) && old(t.state) != Deleted
      ensures forall t :: t in old(ring) ==> t.state == old(t.state)
      ensures !old(rr.state.Deleted?) ==> rr == old(rr)
    {
      ghost var all, dead := ring, DeletedOn(ring);
      assert Distinct(all) by { assert Gate(0); }
      Sweep();
      WithoutExactly(all, dead);
    }

    /** Its loop. */
    method Sweep()
      requires Valid() && !init.state.Deleted?
      modifies this, ring
      ensures Valid() && ring == old(Without(ring, DeletedOn(ring)))
      ensures forall t :: t in old(ring) ==> t.state == old(t.state)
      ensures !old(rr.state.Deleted?) ==> rr == old(rr)
    {
      ghost var all, dead := ring, DeletedOn(ring);
      ghost var i := 1;
      var p := init;
      Pointer(ring, 0);
      var t := init.next;
      assert all[..1] == [init] && Without(all[..1], dead) == Without([], dead) + [init];
      ghost var kept := [init];
      while t != init
        invariant Scanned(all, dead, kept, i, p, t)
        invariant forall x :: x in all ==> x.state == old(x.state)
        invariant old(rr) !in dead ==> rr == old(rr)
        modifies this`rr, this`ring, this`at, all
        decreases |all| - i
      {
        assert i < |all| && t == ring[|kept|] == all[i];
        InAll(all, dead, i, kept);
        p, t, kept := Visit(p, t, all, dead, kept, i);
        i := i + 1;
      }
      Pointer(ring, 0);
      assert i == |all|;
      assert all[..|all|] == all;
    }
  }
}
