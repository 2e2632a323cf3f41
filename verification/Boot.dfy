/** `init_paging`: from the boot loader's memory map to the first consistent state. */
module Boot {
  import opened Common
  import opened Places
  import opened PageTables
  import opened PageMachine

  /** An entry of the memory map, in frames; `usable` is LIMINE_MEMMAP_USABLE. */
  datatype Region = Region(base: nat, length: nat, usable: bool)

  predicate UsableFrame(memmap: seq<Region>, f: nat) {
    exists i :: 0 <= i < |memmap| && memmap[i].usable && memmap[i].base <= f < memmap[i].base + memmap[i].length
  }

  ghost function BootPins(refs: seq<nat>, root: nat): multiset<nat> {
    multiset(set f: nat | f < |refs| && f != root && refs[f] > 0)
  }

  ghost function BootShape(refs: seq<nat>, root: nat, zero: nat): Shape {
    Shape(map[Space(root) := Table(root, 4)], map[root := Space(root)], map[], {Space(root)}, {}, BootPins(refs, root), zero)
  }

  /** A bitmap of zeros and ones with the boot root and the zero page in use is consistent. */
  lemma BootInv(words: Words, refs: seq<nat>, root: nat, zero: nat)
    requires Sized(words, |refs|) && forall f :: 0 <= f < |refs| ==> refs[f] <= 1
    requires root < |refs| && zero < |refs| && zero != root && refs[root] == 1 && refs[zero] == 1
    requires forall i: nat :: i < USER_ENTRIES ==> !words[Addr(root, i)].present
    requires forall i: nat :: i < ENTRIES ==> words[Addr(zero, i)] == ZERO_WORD
    requires forall f :: 0 <= f < zero + 1 ==> refs[f] > 0
    ensures Inv(Mem(words, refs, zero + 1), BootShape(refs, root, zero))
  {
    var g := BootShape(refs, root, zero);
    forall f: nat | f < |refs| ensures refs[f] == g.pins[f] + Refs(TableFrames(g.at), f) + Refs(LeafFrames(g.leaves), f) {
      assert TableFrames(g.at) == map[Space(root) := root];
      assert Names(TableFrames(g.at), f) == if f == root then {Space(root)} else {};
      assert Names(LeafFrames(g.leaves), f) == {};
    }
    assert Structure(words, |refs|, g);
    assert Counted(refs, zero + 1, g);
  }

  /** One past the highest usable frame. */
  function Highest(memmap: seq<Region>): nat {
    if memmap == [] then 0 else
      var e := memmap[|memmap| - 1];
      var rest := Highest(memmap[..|memmap| - 1]);
      if e.usable && e.base + e.length > rest then e.base + e.length else rest
  }

  lemma {:induction false} HighestBounds(memmap: seq<Region>, i: nat)
    requires i < |memmap| && memmap[i].usable
    ensures memmap[i].base + memmap[i].length <= Highest(memmap)
  {
    if i < |memmap| - 1 { HighestBounds(memmap[..|memmap| - 1], i); }
  }

  /** It is the end of some usable region. */
  lemma {:induction false} HighestReached(memmap: seq<Region>)
    ensures Highest(memmap) != 0 ==> exists i :: 0 <= i < |memmap| && memmap[i].usable && memmap[i].base + memmap[i].length == Highest(memmap)
  {
    if memmap != [] {
      var front, e := memmap[..|memmap| - 1], memmap[|memmap| - 1];
      HighestReached(front);
      if Highest(memmap) != 0 && !(e.usable && e.base + e.length > Highest(front)) {
        var i :| 0 <= i < |front| && front[i].usable && front[i].base + front[i].length == Highest(front);
        assert memmap[i] == front[i];
      }
    }
  }

  method FindHighest(memmap: seq<Region>) returns (n: nat)
    ensures n == Highest(memmap)
  {
    n := 0;
    for i := 0 to |memmap|
      invariant n == Highest(memmap[..i])
    {
      assert memmap[..i + 1][..i] == memmap[..i];
      if memmap[i].usable && memmap[i].base + memmap[i].length > n { n := memmap[i].base + memmap[i].length; }
    }
    assert memmap[..|memmap|] == memmap;
  }

  lemma OneMoreRegion(memmap: seq<Region>, i: nat, f: nat)
    requires i < |memmap|
    ensures UsableFrame(memmap[..i + 1], f) <==>
              UsableFrame(memmap[..i], f) || (memmap[i].usable && memmap[i].base <= f < memmap[i].base + memmap[i].length)
  {
    if UsableFrame(memmap[..i], f) {
      var j :| 0 <= j < i && memmap[j].usable && memmap[j].base <= f < memmap[j].base + memmap[j].length;
      assert memmap[..i + 1][j] == memmap[j];
    }
    assert memmap[..i + 1][i] == memmap[i];
    assert forall j :: 0 <= j < i ==> memmap[..i + 1][j] == memmap[..i][j];
  }

  /** The bitmap before anything is taken: 0 exactly for usable frames. */
  method MarkUsable(memmap: seq<Region>, n: nat) returns (refs: array<nat>)
    requires n == Highest(memmap)
    ensures fresh(refs) && refs.Length == n
    ensures forall f :: 0 <= f < n ==> refs[f] == if UsableFrame(memmap, f) then 0 else 1
  {
    refs := new nat[n](_ => 1);
    for i := 0 to |memmap|
      invariant forall f :: 0 <= f < n ==> refs[f] == if UsableFrame(memmap[..i], f) then 0 else 1
    {
      var e := memmap[i];
      forall f: nat
        ensures UsableFrame(memmap[..i + 1], f) <==> UsableFrame(memmap[..i], f) || (e.usable && e.base <= f < e.base + e.length)
      {
        OneMoreRegion(memmap, i, f);
      }
      if e.usable {
        HighestBounds(memmap, i);
        for j := e.base to e.base + e.length
          invariant forall f :: 0 <= f < n ==>
                      refs[f] == if UsableFrame(memmap[..i], f) || e.base <= f < j then 0 else 1
        {
          refs[j] := 0;
        }
      }
    }
    assert memmap[..|memmap|] == memmap;
  }

  /** The first frame of the first usable region that the bitmap of `n` counters fits into, or 0. */
  function BitmapHome(memmap: seq<Region>, n: nat): nat {
    if memmap == [] then 0
    else if memmap[0].usable && memmap[0].length * PAGE_SIZE >= n * 4 then memmap[0].base
    else BitmapHome(memmap[1..], n)
  }

  predicate InBitmap(home: nat, n: nat, f: nat) {
    home <= f && f * PAGE_SIZE < home * PAGE_SIZE + n * 4
  }

  /** The frames of the bitmap are those in which its 32-bit counters lie. */
  lemma BitmapFrames(home: nat, n: nat, f: nat)
    ensures InBitmap(home, n, f) <==> exists c: nat :: c < n && CounterIn(home, c, f)
  {
    if InBitmap(home, n, f) {
      assert CounterIn(home, (f - home) * 1024, f);
    }
  }

  predicate CounterIn(home: nat, c: nat, f: nat) {
    (home * PAGE_SIZE + 4 * c) / PAGE_SIZE == f
  }

  /** The bitmap lies in the first usable region that is large enough. */
  lemma {:induction false} HomeFits(memmap: seq<Region>, n: nat)
    ensures BitmapHome(memmap, n) != 0 ==> exists i :: 0 <= i < |memmap| && IsHome(memmap, n, i) && memmap[i].base == BitmapHome(memmap, n)
    ensures BitmapHome(memmap, n) == 0 ==> (forall i :: 0 <= i < |memmap| ==> !(memmap[i].usable && memmap[i].length * PAGE_SIZE >= n * 4))
                                           || exists i :: 0 <= i < |memmap| && IsHome(memmap, n, i) && memmap[i].base == 0
  {
    if memmap != [] {
      if memmap[0].usable && memmap[0].length * PAGE_SIZE >= n * 4 {
        assert IsHome(memmap, n, 0);
      } else {
        var rest := memmap[1..];
        HomeFits(rest, n);
        assert forall i :: 0 < i < |memmap| ==> memmap[i] == rest[i - 1];
        if i :| 0 <= i < |rest| && IsHome(rest, n, i) && rest[i].base == BitmapHome(memmap, n) {
          assert IsHome(memmap, n, i + 1);
        }
      }
    }
  }

  predicate IsHome(memmap: seq<Region>, n: nat, i: nat)
    requires i < |memmap|
  {
    && memmap[i].usable && memmap[i].length * PAGE_SIZE >= n * 4
    && forall j :: 0 <= j < i ==> !(memmap[j].usable && memmap[j].length * PAGE_SIZE >= n * 4)
  }

  /** The frames of the bitmap are usable ones. */
  lemma BitmapUsable(memmap: seq<Region>, n: nat, f: nat)
    requires BitmapHome(memmap, n) != 0 && InBitmap(BitmapHome(memmap, n), n, f)
    ensures UsableFrame(memmap, f)
  {
    HomeFits(memmap, n);
    var i :| 0 <= i < |memmap| && IsHome(memmap, n, i) && memmap[i].base == BitmapHome(memmap, n);
    assert memmap[i].base <= f < memmap[i].base + memmap[i].length;
  }

  method FindHome(memmap: seq<Region>, n: nat) returns (home: nat)
    requires n == Highest(memmap)
    ensures home == BitmapHome(memmap, n)
    ensures home != 0 ==> forall f: nat :: InBitmap(home, n, f) ==> f < n
  {
    home := 0;
    var i := 0;
    assert memmap[0..] == memmap;
    while i < |memmap|
      invariant i <= |memmap| && home == 0 && BitmapHome(memmap, n) == BitmapHome(memmap[i..], n)
    {
      assert memmap[i..][1..] == memmap[i + 1..];
      if memmap[i].usable && memmap[i].length * PAGE_SIZE >= n * 4 {
        HighestBounds(memmap, i);
        return memmap[i].base;
      }
      i := i + 1;
    }
  }

  /** Frames that may be handed out: usable ones that do not hold the bitmap. */
  predicate Spare(memmap: seq<Region>, n: nat, f: nat) {
    UsableFrame(memmap, f) && !InBitmap(BitmapHome(memmap, n), n, f)
  }

  method MarkBitmap(memmap: seq<Region>, n: nat, home: nat, refs: array<nat>)
    requires refs.Length == n && home == BitmapHome(memmap, n) && forall f: nat :: InBitmap(home, n, f) ==> f < n
    requires forall f :: 0 <= f < n ==> refs[f] == if UsableFrame(memmap, f) then 0 else 1
    modifies refs
    ensures forall f :: 0 <= f < n ==> refs[f] == if Spare(memmap, n, f) then 0 else 1
  {
    var f := home;
    while f * PAGE_SIZE < home * PAGE_SIZE + n * 4
      invariant home <= f && (f - 1) * PAGE_SIZE < home * PAGE_SIZE + n * 4
      invariant forall j :: 0 <= j < n ==> refs[j] == if UsableFrame(memmap, j) && !(home <= j < f) then 0 else 1
      decreases home * PAGE_SIZE + n * 4 - f * PAGE_SIZE
    {
      assert InBitmap(home, n, f);
      refs[f] := 1;
      f := f + 1;
    }
  }

  /**
   `init_paging` on a machine whose loaded root table has an empty user half. `None` is one of its
   panics: no usable region holds the bitmap, the first that does starts at 0, or no frame is left.
   Afterwards the free frames are exactly the spare ones without the zero page, the first of them.
   */
  method InitPaging(words: Words, memmap: seq<Region>, root: nat) returns (r: Option<Machine>)
    requires Sized(words, Highest(memmap)) && root < Highest(memmap) && !UsableFrame(memmap, root)
    requires forall i: nat :: i < USER_ENTRIES ==> !words[Addr(root, i)].present
    ensures var n := Highest(memmap);
            r.None? <==> BitmapHome(memmap, n) == 0 || forall f :: 0 <= f < n ==> !Spare(memmap, n, f)
    ensures r.Some? ==> && fresh(r.value) && r.value.Idle() && r.value.pml4 == root
                        && r.value.words == ClearFrame(words, r.value.zeroPage)
                        && r.value.g.leaves == map[] && r.value.g.at.Keys == {Space(root)}
                        && r.value.refs.Length == Highest(memmap)
                        && Spare(memmap, Highest(memmap), r.value.zeroPage)
                        && (forall f :: 0 <= f < r.value.zeroPage ==> !Spare(memmap, Highest(memmap), f))
                        && forall f :: 0 <= f < r.value.refs.Length ==>
                             r.value.refs[f] == if Spare(memmap, Highest(memmap), f) && f != r.value.zeroPage then 0 else 1
  {
    var n := FindHighest(memmap);
    var home := FindHome(memmap, n);
    if home == 0 { return None; }
    var refs := MarkUsable(memmap, n);
    MarkBitmap(memmap, n, home, refs);
    var zero := 0;
    while zero < n && refs[zero] != 0
      invariant zero <= n && forall j :: 0 <= j < zero ==> refs[j] > 0
    {
      zero := zero + 1;
    }
    if zero == n { return None; }
    assert refs[root] == 1;
    var cleared := ClearFrame(words, zero);
    refs[zero] := 1;
    BootInv(cleared, refs[..], root, zero);
    var mach := new Machine(cleared, refs, zero + 1, zero, root, BootShape(refs[..], root, zero));
    r := Some(mach);
  }
}
