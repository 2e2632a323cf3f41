/**
 The ring with which a chain is shortened in kernel/fs/fat.c and kernel/fs/ramfs.c: while a chain is
 followed to its end, n slots hold the last n links visited.
 */
module TailRing {

  /** The slot t steps behind `head` on a ring of n. */
  function Back(head: nat, t: nat, n: nat): (r: nat)
    requires head < n && t < n
    ensures r < n
  {
    if t <= head then head - t else head - t + n
  }

  /** Slot for slot backwards from `head`: the links visited so far, the m-th one last, then slots never used. */
  ghost predicate Tail<T>(slots: seq<T>, head: nat, chain: seq<T>, m: nat, empty: T) {
    && head < |slots| && m < |chain|
    && forall t :: 0 <= t < |slots| ==> slots[Back(head, t, |slots|)] == if t <= m then chain[m - t] else empty
  }

  function After(head: nat, n: nat): (r: nat)
    requires head < n
    ensures r < n
  {
    if head + 1 == n then 0 else head + 1
  }

  function Before(head: nat, n: nat): (r: nat)
    requires head < n
    ensures r < n
  {
    if head == 0 then n - 1 else head - 1
  }

  /** `(head + 1) % (difference + 1)` */
  method StepOn(head: nat, difference: nat) returns (r: nat)
    requires head < difference + 1
    ensures r == After(head, difference + 1)
  {
    Moduli(head, difference + 1);
    r := (head + 1) % (difference + 1);
  }

  /** `(head + difference) % (difference + 1)` */
  method StepBack(head: nat, difference: nat) returns (r: nat)
    requires head < difference + 1
    ensures r == Before(head, difference + 1)
  {
    Moduli(head, difference + 1);
    r := (head + difference) % (difference + 1);
  }

  lemma Moduli(head: nat, n: nat)
    requires head < n
    ensures (head + 1) % n == After(head, n)
    ensures (head + (n - 1)) % n == Before(head, n)
  {
    if head + 1 < n { Small(head + 1, n); } else { OneRound(0, n); }
    if head == 0 { Small(n - 1, n); } else { OneRound(head - 1, n); }
  }

  lemma Small(x: nat, n: nat)
    requires x < n
    ensures x % n == x
  {
  }

  lemma OneRound(r: nat, n: nat)
    requires r < n
    ensures (n + r) % n == r
  {
    var q := (n + r) / n;
    assert q * n + (n + r) % n == n + r;
    if q <= 0 { AtMost(q, 0, n); } else if q >= 2 { AtMost(2, q, n); }
  }

  lemma AtMost(a: int, b: int, n: nat)
    requires a <= b
    ensures a * n <= b * n
  {
  }

  lemma Start<T>(slots: seq<T>, chain: seq<T>, empty: T)
    requires |slots| > 0 && |chain| > 0 && slots[0] == chain[0] && forall i :: 1 <= i < |slots| ==> slots[i] == empty
    ensures Tail(slots, 0, chain, 0, empty)
  {
  }

  /** The next link goes into the slot after `head`, over the oldest one. */
  lemma Push<T>(slots: seq<T>, head: nat, chain: seq<T>, m: nat, empty: T)
    requires Tail(slots, head, chain, m, empty) && m + 1 < |chain|
    ensures var next := After(head, |slots|);
            Tail(slots[next := chain[m + 1]], next, chain, m + 1, empty)
  {
    var n := |slots|;
    var next := After(head, n);
    forall t | 0 <= t < n ensures slots[next := chain[m + 1]][Back(next, t, n)] == if t <= m + 1 then chain[m + 1 - t] else empty {
      if t > 0 {
        assert Back(next, t, n) == Back(head, t - 1, n);
        assert slots[Back(head, t - 1, n)] == if t - 1 <= m then chain[m - (t - 1)] else empty;
      }
    }
  }

  lemma Behind<T>(slots: seq<T>, head: nat, chain: seq<T>, m: nat, empty: T, t: nat)
    requires Tail(slots, head, chain, m, empty) && t < |slots|
    ensures slots[Back(head, t, |slots|)] == if t <= m then chain[m - t] else empty
  {
  }

  /** The slot after `head` holds the oldest link kept, if the chain was long enough. */
  lemma Oldest<T>(slots: seq<T>, head: nat, chain: seq<T>, m: nat, empty: T)
    requires Tail(slots, head, chain, m, empty)
    ensures slots[After(head, |slots|)] == if |slots| - 1 <= m then chain[m - (|slots| - 1)] else empty
  {
    var n := |slots|;
    assert Back(head, n - 1, n) == After(head, n);
  }

  lemma Backwards(head: nat, t: nat, n: nat)
    requires head < n && t + 1 < n
    ensures Before(Back(head, t, n), n) == Back(head, t + 1, n)
  {
  }
}
