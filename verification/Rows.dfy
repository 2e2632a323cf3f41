/**
 Rows of equal length laid out one after the other, as blocks and sectors are on a device.
 */
module Rows {

  import opened Patches

  /** Where row i begins when rows have n places. */
  function Times(i: nat, n: nat): nat {
    if i == 0 then 0 else Times(i - 1, n) + n
  }

  lemma {:induction false} TimesIsProduct(i: nat, n: nat)
    ensures Times(i, n) == i * n
  {
    if i > 0 {
      TimesIsProduct(i - 1, n);
      assert i * n == (i - 1) * n + n;
    }
  }

  lemma {:induction false} RowsApart(i: nat, j: nat, n: nat)
    requires i < j
    ensures Times(i, n) + n <= Times(j, n)
  {
    if j > i + 1 { RowsApart(i, j - 1, n); }
  }

  /** The row in which place x lies, `x / n`. */
  function RowOf(x: nat, n: nat): (q: nat)
    requires n > 0
    ensures Times(q, n) <= x < Times(q, n) + n
    ensures q <= x
  {
    if x < n then 0 else RowOf(x - n, n) + 1
  }

  /** Computing it. */
  method Quotient(x: nat, n: nat) returns (q: nat)
    requires n > 0
    ensures q == RowOf(x, n)
  {
    QuotientIs(x, n, RowOf(x, n), x - Times(RowOf(x, n), n));
    q := x / n;
  }

  lemma QuotientIs(x: nat, n: nat, q: nat, r: nat)
    requires r < n && x == Times(q, n) + r
    ensures x / n == q && x % n == r
  {
    TimesIsProduct(q, n);
    var p := x / n;
    assert p * n + x % n == x;
    TimesIsProduct(p, n);
    if p < q { RowsApart(p, q, n); } else if q < p { RowsApart(q, p, n); }
  }

  // ---------------------------------------------------------------- sequences of rows

  ghost predicate Full<T>(rows: seq<seq<T>>, n: nat) {
    forall i :: 0 <= i < |rows| ==> |rows[i]| == n
  }

  ghost function Flat<T>(rows: seq<seq<T>>): seq<T> {
    if rows == [] then [] else Flat(rows[..|rows| - 1]) + rows[|rows| - 1]
  }

  lemma {:induction false} FlatSize<T>(rows: seq<seq<T>>, n: nat)
    requires Full(rows, n)
    ensures |Flat(rows)| == Times(|rows|, n)
  {
    if rows != [] { FlatSize(rows[..|rows| - 1], n); }
  }

  lemma {:induction false} FlatJoins<T>(a: seq<seq<T>>, b: seq<seq<T>>)
    ensures Flat(a + b) == Flat(a) + Flat(b)
  {
    if b == [] {
      assert a + b == a;
    } else {
      assert (a + b)[..|a + b| - 1] == a + b[..|b| - 1];
      FlatJoins(a, b[..|b| - 1]);
    }
  }

  lemma FlatPrefix<T>(rows: seq<seq<T>>, n: nat, k: nat)
    requires Full(rows, n) && k <= |rows|
    ensures Times(k, n) <= |Flat(rows)| && Flat(rows)[..Times(k, n)] == Flat(rows[..k])
  {
    assert rows == rows[..k] + rows[k..];
    FlatJoins(rows[..k], rows[k..]);
    FlatSize(rows[..k], n);
  }

  /** A row in its place. */
  lemma FlatRow<T>(rows: seq<seq<T>>, n: nat, k: nat)
    requires Full(rows, n) && k < |rows|
    ensures Times(k, n) + n <= |Flat(rows)| && Flat(rows)[Times(k, n)..Times(k, n) + n] == rows[k]
  {
    assert rows == (rows[..k] + [rows[k]]) + rows[k + 1..];
    FlatJoins(rows[..k] + [rows[k]], rows[k + 1..]);
    FlatJoins(rows[..k], [rows[k]]);
    FlatSize(rows[..k], n);
    OneRow(rows[k]);
    Middle(Flat(rows[..k]), rows[k], Flat(rows[k + 1..]));
  }

  lemma OneRow<T>(row: seq<T>)
    ensures Flat([row]) == row
  {
    assert [row][..0] == [];
  }

  lemma Middle<T>(a: seq<T>, b: seq<T>, c: seq<T>)
    ensures ((a + b) + c)[|a|..|a| + |b|] == b
  {
  }

  /** Overwriting a part of one row. */
  lemma {:induction false} FlatPatch<T>(rows: seq<seq<T>>, n: nat, k: nat, from: nat, piece: seq<T>)
    requires Full(rows, n) && k < |rows| && from + |piece| <= n
    ensures Full(rows[k := Patch(rows[k], from, piece)], n)
    ensures Times(k, n) + from + |piece| <= |Flat(rows)|
    ensures Flat(rows[k := Patch(rows[k], from, piece)]) == Patch(Flat(rows), Times(k, n) + from, piece)
  {
    var m := |rows| - 1;
    var after := rows[k := Patch(rows[k], from, piece)];
    FlatSize(rows, n);
    FlatSize(rows[..m], n);
    if k == m {
      assert after[..m] == rows[..m];
    } else {
      assert after[..m] == rows[..m][k := Patch(rows[k], from, piece)];
      RowsApart(k, m, n);
      FlatPatch(rows[..m], n, k, from, piece);
      PatchFront(Flat(rows[..m]), rows[m], Times(k, n) + from, piece);
    }
  }

  lemma PatchFront<T>(s: seq<T>, more: seq<T>, at: nat, data: seq<T>)
    requires at + |data| <= |s|
    ensures Patch(s + more, at, data) == Patch(s, at, data) + more
  {
  }
}
