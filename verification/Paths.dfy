/**
 Path normalisation (kernel/vfs.c: make_absolute, resolve_path and the path handling of chdir).
 */
module Paths {

  import opened Common

  /** MAX_PATH */
  const MAX: nat := 4096

  /** A C string has no zero byte inside. */
  predicate CString(s: string) {
    forall i :: 0 <= i < |s| ==> s[i] != '\0'
  }

  function At(s: string, i: nat): char {
    if i < |s| then s[i] else '\0'
  }

  // ---------------------------------------------------------------- components

  /** The length of the first component of a string that does not begin with a slash. */
  function Span(s: string): (n: nat)
    ensures n <= |s| && (forall i :: 0 <= i < n ==> s[i] != '/') && (n < |s| ==> s[n] == '/')
  {
    if s == "" || s[0] == '/' then 0 else 1 + Span(s[1..])
  }

  /** The components of a path: what stands between slashes, without the empty pieces. */
  function Components(s: string): seq<string>
    decreases |s|
  {
    if s == "" then []
    else if s[0] == '/' then Components(s[1..])
    else [s[..Span(s)]] + Components(s[Span(s)..])
  }

  function Step(stack: seq<string>, c: string): seq<string> {
    if c == "." then stack
    else if c == ".." then (if stack == [] then [] else stack[..|stack| - 1])
    else stack + [c]
  }

  /** Walking along components from a directory: "." stays, ".." goes up, at the root it stays. */
  function Walk(stack: seq<string>, cs: seq<string>): seq<string>
    decreases |cs|
  {
    if cs == [] then stack else Walk(Step(stack, cs[0]), cs[1..])
  }

  lemma {:induction false} WalkJoins(stack: seq<string>, a: seq<string>, b: seq<string>)
    ensures Walk(stack, a + b) == Walk(Walk(stack, a), b)
    decreases |a|
  {
    if a == [] {
      assert a + b == b;
    } else {
      assert (a + b)[1..] == a[1..] + b;
      WalkJoins(Step(stack, a[0]), a[1..], b);
    }
  }

  ghost predicate Plain(cs: seq<string>) {
    forall i :: 0 <= i < |cs| ==> cs[i] != "." && cs[i] != ".."
  }

  lemma {:induction false} WalkIsPlain(stack: seq<string>, cs: seq<string>)
    requires Plain(stack)
    ensures Plain(Walk(stack, cs))
    decreases |cs|
  {
    if cs != [] { WalkIsPlain(Step(stack, cs[0]), cs[1..]); }
  }

  lemma {:induction false} WalkPlain(stack: seq<string>, cs: seq<string>)
    requires Plain(cs)
    ensures Walk(stack, cs) == stack + cs
    decreases |cs|
  {
    if cs != [] {
      assert Plain(cs[1..]);
      WalkPlain(stack + [cs[0]], cs[1..]);
      assert stack + cs == (stack + [cs[0]]) + cs[1..];
    }
  }

  /**
   What the walk does, without its steps: a name and the ".." behind it cancel, at the root ".." is nothing,
   "." is nothing anywhere, and names stay. These laws leave one result for every sequence of components.
   */
  lemma WalkLaws(a: seq<string>, c: string, b: seq<string>)
    ensures c != "." && c != ".." ==> Walk([], a + [c, ".."] + b) == Walk([], a + b)
    ensures Walk([], [".."] + b) == Walk([], b)
    ensures Walk([], a + ["."] + b) == Walk([], a + b)
    ensures Plain(a) ==> Walk([], a) == a
  {
    var s := Walk([], a);
    WalkJoins([], a + [c, ".."], b);
    WalkJoins([], a, [c, ".."]);
    WalkJoins([], a + ["."], b);
    WalkJoins([], a, ["."]);
    WalkJoins([], a, b);
    WalkJoins([], [".."], b);
    WalkOne(s, ".");
    WalkOne([], "..");
    WalkTwo(s, c, "..");
    if Plain(a) {
      WalkPlain([], a);
      assert [] + a == a;
    }
  }

  lemma WalkOne(s: seq<string>, c: string)
    ensures Walk(s, [c]) == Step(s, c)
  {
    assert [c][1..] == [];
  }

  lemma WalkTwo(s: seq<string>, c: string, d: string)
    ensures Walk(s, [c, d]) == Step(Step(s, c), d)
  {
    assert [c, d][1..] == [d];
    WalkOne(Step(s, c), d);
  }

  lemma SpanIs(s: string, n: nat)
    requires n <= |s| && (forall i :: 0 <= i < n ==> s[i] != '/') && (n < |s| ==> s[n] == '/')
    ensures Span(s) == n
  {
    assert Span(s) < |s| ==> s[Span(s)] == '/';
  }

  /** A slash separates. */
  lemma {:induction false} ComponentsJoin(a: string, b: string)
    ensures Components(a + "/" + b) == Components(a) + Components(b)
    decreases |a|
  {
    var s := a + "/" + b;
    if a == "" {
      assert s[0] == '/' && s[1..] == b;
    } else if a[0] == '/' {
      assert s[1..] == a[1..] + "/" + b;
      ComponentsJoin(a[1..], b);
    } else {
      var n := Span(a);
      SpanIs(s, n);
      assert s[..n] == a[..n] && s[n..] == a[n..] + "/" + b;
      ComponentsJoin(a[n..], b);
      assert Components(s) == [s[..n]] + Components(s[n..]) && Components(a) == [a[..n]] + Components(a[n..]);
      assert ([a[..n]] + Components(a[n..])) + Components(b) == [a[..n]] + (Components(a[n..]) + Components(b));
    }
  }

  lemma ComponentsOne(c: string)
    requires c != "" && '/' !in c
    ensures Components(c) == [c]
  {
    SpanIs(c, |c|);
    assert c[..|c|] == c && c[|c|..] == "";
  }

  // ---------------------------------------------------------------- canonical strings

  /** Begins at the root and has no empty inner component; there may be a slash at the end. */
  ghost predicate Canonical(s: string) {
    s != "" && s[0] == '/' && forall i :: 0 <= i < |s| - 1 ==> !(s[i] == '/' && s[i + 1] == '/')
  }

  /** Adding a component, with a slash before it unless there is one. */
  lemma Push(s: string, c: string)
    requires Canonical(s) && c != "" && '/' !in c
    ensures var t := if s[|s| - 1] == '/' then s + c else s + "/" + c;
            Canonical(t) && Components(t) == Components(s) + [c]
  {
    ComponentsOne(c);
    if s[|s| - 1] == '/' {
      var front := s[..|s| - 1];
      assert s == front + "/" + "" && s + c == front + "/" + c;
      ComponentsJoin(front, "");
      ComponentsJoin(front, c);
    } else {
      ComponentsJoin(s, c);
    }
  }

  /** Adding a slash unless there is one. */
  lemma Close(s: string)
    requires Canonical(s)
    ensures var t := if s[|s| - 1] == '/' then s else s + "/";
            Canonical(t) && Components(t) == Components(s)
  {
    assert s + "/" == s + "/" + "";
    ComponentsJoin(s, "");
  }

  /** Cutting back to the slash before the last component. */
  lemma Pop(s: string, from: nat, to: nat)
    requires Canonical(s) && 0 < from < to <= |s|
    requires to == |s| || (to == |s| - 1 && s[to] == '/')
    requires s[from - 1] == '/' && forall i :: from <= i < to ==> s[i] != '/'
    ensures Canonical(s[..from])
    ensures Components(s) != [] && Components(s[..from]) == Components(s)[..|Components(s)| - 1]
  {
    var front, last := s[..from - 1], s[from..to];
    CloseFront(s, from);
    ComponentsOne(last);
    ComponentsJoin(front, last);
    assert s[..to] == front + "/" + last;
    if to < |s| {
      assert s == s[..to] + "/" + "";
      ComponentsJoin(s[..to], "");
    } else {
      assert s == s[..to];
    }
    assert Components(s) == Components(front) + [last];
  }

  lemma CloseFront(s: string, from: nat)
    requires Canonical(s) && 0 < from <= |s| && s[from - 1] == '/'
    ensures Canonical(s[..from]) && Components(s[..from]) == Components(s[..from - 1])
  {
    assert s[..from] == s[..from - 1] + "/" + "";
    ComponentsJoin(s[..from - 1], "");
  }

  // ---------------------------------------------------------------- resolve_path

  function LeadingSlashes(s: string): (n: nat)
    ensures n <= |s|
  {
    if s != "" && s[0] == '/' then 1 + LeadingSlashes(s[1..]) else 0
  }

  /** What is behind the leading slashes fits the buffer. */
  predicate Fits(path: string) {
    |path| - LeadingSlashes(path) <= MAX - 2
  }

  /** ".." in the output buffer. */
  method Backtrack(out: array<char>, len: nat) returns (len': nat)
    requires 1 < len <= out.Length && Canonical(out[..len])
    ensures 0 < len' < len && Canonical(out[..len']) && (CString(out[..len]) ==> CString(out[..len']))
    ensures Components(out[..len]) != []
    ensures Components(out[..len']) == Components(out[..len])[..|Components(out[..len])| - 1]
  {
    len' := len;
    if out[len' - 1] == '/' {
      assert out[..len][len - 2] != '/';
      len' := len' - 1;
    }
    ghost var to := len';
    while len' > 1 && out[len' - 1] != '/'
      invariant 1 <= len' <= to
      invariant forall i :: len' <= i < to ==> out[i] != '/'
    {
      len' := len' - 1;
    }
    assert out[..len][0] == '/';
    assert out[..len][..len'] == out[..len'];
    assert forall i :: 0 <= i < len' ==> out[..len'][i] == out[..len][i];
    Pop(out[..len], len', to);
  }

  method SkipSlashes(path: string, p: nat) returns (p': nat)
    requires p <= |path|
    ensures p <= p' <= |path| && At(path, p') != '/'
    ensures forall i :: p <= i < p' ==> path[i] == '/'
    ensures Components(path[p'..]) == Components(path[p..])
  {
    p' := p;
    while At(path, p') == '/'
      invariant p <= p' <= |path| && (forall i :: p <= i < p' ==> path[i] == '/')
      invariant Components(path[p'..]) == Components(path[p..])
      decreases |path| - p'
    {
      assert path[p'..][1..] == path[p' + 1..];
      p' := p' + 1;
    }
  }

  /** The copying loop; it stops early only when the buffer is full. */
  method CopyComponent(path: string, p: nat, out: array<char>, len: nat) returns (n: nat)
    requires CString(path) && p <= |path| && len < MAX == out.Length
    modifies out
    ensures p + n <= |path| && len + n < MAX
    ensures out[..len + n] == old(out[..len]) + path[p..p + n]
    ensures '/' !in path[p..p + n] && (At(path, p + n) == '/' || p + n == |path| || len + n == MAX - 1)
  {
    n := 0;
    while p + n < |path| && path[p + n] != '/' && len + n < MAX - 1
      invariant p + n <= |path| && len + n < MAX && '/' !in path[p..p + n]
      invariant out[..len + n] == old(out[..len]) + path[p..p + n]
      decreases |path| - n
    {
      out[len + n] := path[p + n];
      n := n + 1;
    }
  }

  /** What is left of the input, walked from where the output stands, leads to the goal. */
  ghost predicate OnWay(out: string, rest: string, goal: seq<string>) {
    Canonical(out) && forall z {:trigger Gate(z)} :: Gate(z) ==> Leads(out, rest, goal)
  }

  ghost predicate Leads(out: string, rest: string, goal: seq<string>) {
    Walk(Components(out), Components(rest)) == goal
  }

  lemma OnWayDot(out: string, rest: string, goal: seq<string>)
    requires OnWay(out, rest, goal) && At(rest, 0) == '.' && CString(rest) && (At(rest, 1) == '/' || |rest| == 1)
    ensures OnWay(out, rest[1..], goal)
  {
    assert Gate(0);
    SpanIs(rest, 1);
    assert rest[..1] == ".";
    assert Components(rest) == ["."] + Components(rest[1..]);
  }

  lemma DotDot(rest: string)
    requires At(rest, 0) == '.' && At(rest, 1) == '.' && (At(rest, 2) == '/' || |rest| == 2)
    ensures |rest| >= 2 && Components(rest) == [".."] + Components(rest[if At(rest, 2) == '/' then 3 else 2..])
  {
    SpanIs(rest, 2);
    assert rest[..2] == "..";
    if At(rest, 2) == '/' { assert rest[2..][1..] == rest[3..]; }
  }

  lemma OnWayDotDot(out: string, out': string, rest: string, goal: seq<string>)
    requires OnWay(out, rest, goal) && At(rest, 0) == '.' && At(rest, 1) == '.' && (At(rest, 2) == '/' || |rest| == 2)
    requires Canonical(out') && Components(out') == Step(Components(out), "..")
    ensures |rest| >= 2 && OnWay(out', rest[if At(rest, 2) == '/' then 3 else 2..], goal)
  {
    assert Gate(0);
    DotDot(rest);
  }

  /** The copy of a whole component is on the way. */
  lemma OnWayComponent(out: string, closed: string, rest: string, rest': string, goal: seq<string>, n: nat)
    requires OnWay(out, rest, goal) && rest != "" && n == Span(rest) && Components(rest') == Components(rest[n..])
    requires closed == Closed(out)
    requires !(At(rest, 0) == '.' && (At(rest, 1) == '/' || |rest| == 1))
    requires !(At(rest, 0) == '.' && At(rest, 1) == '.' && (At(rest, 2) == '/' || |rest| == 2))
    ensures OnWay(closed + rest[..n], rest', goal)
  {
    assert Gate(0);
    if n == 0 {
      Close(out);
      assert rest[..0] == "" && rest[0..] == rest;
      assert closed + "" == closed;
    } else {
      var c := rest[..n];
      Push(out, c);
      assert (out + "/") + c == out + "/" + c;
      NotDots(rest, n);
      assert Components(rest) == [c] + Components(rest[n..]);
    }
  }

  lemma NotDots(rest: string, n: nat)
    requires n == Span(rest) > 0
    requires !(At(rest, 0) == '.' && (At(rest, 1) == '/' || |rest| == 1))
    requires !(At(rest, 0) == '.' && At(rest, 1) == '.' && (At(rest, 2) == '/' || |rest| == 2))
    ensures rest[..n] != "." && rest[..n] != ".."
  {
    assert |rest[..n]| == n && forall i :: 0 <= i < n ==> rest[..n][i] == rest[i];
    assert n < |rest| ==> rest[n] == '/';
  }

  /**
     `resolve_path`. The output is always canonical; when the input fits, its components are the walk
     along the components of the input from the root.
   */
  method ResolvePath(path: string, out: array<char>) returns (len: nat)
    requires CString(path) && out.Length == MAX
    modifies out
    ensures 0 < len < MAX && out[len] == '\0' && Canonical(out[..len]) && CString(out[..len])
    ensures Fits(path) ==> Components(out[..len]) == Walk([], Components(path))
  {
    ghost var goal := Walk([], Components(path));
    out[0], out[1], len := '/', '\0', 1;
    assert out[..1] == "/";
    if |path| == 0 { return; }
    var p := SkipSlashes(path, 0);
    assert path[0..] == path;
    OnWayStart(path, p);
    LeadingIs(path, p);
    ghost var lead := p;
    GoingStart(path, p, goal);
    while p < |path| && len < MAX - 1
      invariant lead <= p <= |path| && 0 < len < MAX && Sound(out[..len]) && Going(out[..len], path, p, lead, goal)
      decreases |path| - p, MAX - len
    {
      len, p := Round(path, p, out, len, goal, lead);
    }
    out[len] := '\0';
    GoingEnd(out[..len], path, p, lead, goal);
  }

  ghost predicate Sound(out: string) {
    Canonical(out) && CString(out)
  }

  /** On the way, if the input fits. */
  ghost predicate Going(out: string, path: string, p: nat, lead: nat, goal: seq<string>) {
    forall z {:trigger Gate(z)} :: Gate(z) ==> GoingOn(out, path, p, lead, goal)
  }

  ghost predicate GoingOn(out: string, path: string, p: nat, lead: nat, goal: seq<string>) {
    p <= |path| && (|path| - lead <= MAX - 2 ==> Ample(out, p, |path|, lead) && OnWay(out, path[p..], goal))
  }

  lemma GoingStart(path: string, p: nat, goal: seq<string>)
    requires p <= |path| && OnWay("/", path[p..], goal)
    ensures Going("/", path, p, p, goal)
  {
  }

  lemma GoingEnd(out: string, path: string, p: nat, lead: nat, goal: seq<string>)
    requires Going(out, path, p, lead, goal) && lead <= p <= |path| && (p < |path| ==> |out| >= MAX - 1)
    ensures |path| - lead <= MAX - 2 ==> Components(out) == goal
  {
    assert Gate(0);
    if |path| - lead <= MAX - 2 { OnWayEnd(out, path[p..], goal); }
  }

  /** One round of the loop. */
  method Round(path: string, p: nat, out: array<char>, len: nat, ghost goal: seq<string>, ghost lead: nat) returns (len': nat, p': nat)
    requires CString(path) && lead <= p < |path| && 0 < len < MAX - 1 && out.Length == MAX && Sound(out[..len])
    requires Going(out[..len], path, p, lead, goal)
    modifies out
    ensures p <= p' <= |path| && 0 < len' < MAX && Sound(out[..len']) && (p < p' || len < len')
    ensures Going(out[..len'], path, p', lead, goal)
  {
    assert Gate(0);
    if At(path, p) == '.' && (At(path, p + 1) == '/' || p + 1 == |path|) {
      GoingDot(out[..len], path, p, lead, goal);
      len', p' := len, p + 1;
    } else if At(path, p) == '.' && At(path, p + 1) == '.' && (At(path, p + 2) == '/' || p + 2 == |path|) {
      len', p' := GoUp(path, p, out, len, goal, lead);
    } else {
      ghost var whole;
      len', p', whole := TakeComponent(path, p, out, len, goal, lead);
    }
  }

  lemma GoingDot(out: string, path: string, p: nat, lead: nat, goal: seq<string>)
    requires GoingOn(out, path, p, lead, goal) && CString(path) && p < |path| && At(path, p) == '.' && (At(path, p + 1) == '/' || p + 1 == |path|)
    ensures GoingOn(out, path, p + 1, lead, goal)
  {
    var rest := path[p..];
    assert rest[1..] == path[p + 1..];
    if |path| - lead <= MAX - 2 { OnWayDot(out, rest, goal); }
  }

  lemma OnWayStart(path: string, p: nat)
    requires p <= |path| && Components(path[p..]) == Components(path)
    ensures OnWay("/", path[p..], Walk([], Components(path)))
  {
    assert Components("/") == [];
  }

  lemma OnWayEnd(out: string, rest: string, goal: seq<string>)
    requires OnWay(out, rest, goal) && rest == ""
    ensures Components(out) == goal
  {
    assert Gate(0);
  }

  /** The output is never longer than the input read so far, counting the slash that comes next. */
  ghost predicate Ample(out: string, p: nat, end: nat, lead: nat) {
    out != "" && |out| + (if out[|out| - 1] != '/' && p < end then 1 else 0) <= p - lead + 1
  }

  /** The second branch of the loop. */
  method GoUp(path: string, p: nat, out: array<char>, len: nat, ghost goal: seq<string>, ghost lead: nat) returns (len': nat, p': nat)
    requires CString(path) && p < |path| && 0 < len < MAX == out.Length && Canonical(out[..len]) && CString(out[..len])
    requires At(path, p) == '.' && At(path, p + 1) == '.' && (At(path, p + 2) == '/' || p + 2 == |path|)
    modifies out
    ensures p < p' <= |path| && 0 < len' < MAX && Canonical(out[..len']) && CString(out[..len'])
    ensures var cs := Components(old(out[..len])); Components(out[..len']) == if cs == [] then [] else cs[..|cs| - 1]
    ensures p' == if At(path, p + 2) == '/' then p + 3 else p + 2
    ensures old(Ample(out[..len], p, |path|, lead)) ==> Ample(out[..len'], p', |path|, lead)
    ensures old(OnWay(out[..len], path[p..], goal)) ==> OnWay(out[..len'], path[p'..], goal)
  {
    ghost var before, rest := out[..len], path[p..];
    len' := len;
    if len > 1 {
      len' := Backtrack(out, len);
      out[len'] := '\0';
    }
    p' := p + 2;
    if At(path, p') == '/' { p' := p' + 1; }
    RootAlone(before);
    if OnWay(before, rest, goal) {
      OnWayDotDot(before, out[..len'], rest, goal);
      assert path[p'..] == rest[if At(rest, 2) == '/' then 3 else 2..];
    }
  }

  lemma RootAlone(s: string)
    requires Canonical(s)
    ensures |s| == 1 ==> Components(s) == []
  {
  }

  /** The third branch of the loop: a slash if there is none, a component, and the slashes behind it. */
  method TakeComponent(path: string, p: nat, out: array<char>, len: nat, ghost goal: seq<string>, ghost lead: nat)
    returns (len': nat, p': nat, ghost whole: bool)
    requires CString(path) && p < |path| && 0 < len < MAX - 1 && out.Length == MAX && Canonical(out[..len]) && CString(out[..len])
    requires !(At(path, p) == '.' && (At(path, p + 1) == '/' || p + 1 == |path|))
    requires !(At(path, p) == '.' && At(path, p + 1) == '.' && (At(path, p + 2) == '/' || p + 2 == |path|))
    modifies out
    ensures p <= p' <= |path| && 0 < len' < MAX && Canonical(out[..len']) && CString(out[..len']) && (p < p' || len < len')
    ensures old(Ample(out[..len], p, |path|, lead)) && |path| - lead <= MAX - 2 ==> whole && Ample(out[..len'], p', |path|, lead)
    ensures whole && OnWay(old(out[..len]), path[p..], goal) ==> OnWay(out[..len'], path[p'..], goal)
  {
    ghost var before := out[..len];
    var n;
    len', n := CopyClosed(path, p, out, len);
    out[len'] := '\0';
    whole := p + n == |path| || path[p + n] == '/';
    p' := SkipSlashes(path, p + n);
    Taken(path, p, n, p', before, out[..len'], goal);
    Strings(Closed(before), path, p, n);
  }

  lemma Strings(s: string, path: string, p: nat, n: nat)
    requires CString(s) && CString(path) && p + n <= |path|
    ensures CString(s + path[p..p + n])
  {
    var piece := path[p..p + n];
    assert forall i :: 0 <= i < n ==> piece[i] != '\0';
  }

  lemma Taken(path: string, p: nat, n: nat, p': nat, before: string, after: string, goal: seq<string>)
    requires p < |path| && p + n <= p' <= |path| && Canonical(before) && after == Closed(before) + path[p..p + n]
    requires !(At(path, p) == '.' && (At(path, p + 1) == '/' || p + 1 == |path|))
    requires !(At(path, p) == '.' && At(path, p + 1) == '.' && (At(path, p + 2) == '/' || p + 2 == |path|))
    requires '/' !in path[p..p + n] && Components(path[p'..]) == Components(path[p + n..])
    ensures Canonical(after)
    ensures (p + n == |path| || path[p + n] == '/') && OnWay(before, path[p..], goal) ==> OnWay(after, path[p'..], goal)
  {
    var rest := path[p..];
    assert path[p..p + n] == rest[..n];
    CanonicalGrow(before, Closed(before), rest[..n]);
    if (p + n == |path| || path[p + n] == '/') && OnWay(before, rest, goal) {
      assert rest[n..] == path[p + n..];
      TakenWay(rest, n, path[p'..], before, goal);
    }
  }

  lemma TakenWay(rest: string, n: nat, rest': string, before: string, goal: seq<string>)
    requires 0 < |rest| && n <= |rest| && (n == |rest| || rest[n] == '/') && OnWay(before, rest, goal)
    requires !(rest[0] == '.' && (At(rest, 1) == '/' || |rest| == 1))
    requires !(rest[0] == '.' && At(rest, 1) == '.' && (At(rest, 2) == '/' || |rest| == 2))
    requires '/' !in rest[..n] && Components(rest') == Components(rest[n..])
    ensures OnWay(Closed(before) + rest[..n], rest', goal)
  {
    assert forall i :: 0 <= i < n ==> rest[..n][i] == rest[i];
    SpanIs(rest, n);
    OnWayComponent(before, Closed(before), rest, rest', goal, n);
  }

  method CopyClosed(path: string, p: nat, out: array<char>, len: nat) returns (len': nat, n: nat)
    requires CString(path) && p < |path| && 0 < len < MAX - 1 && out.Length == MAX
    modifies out
    ensures p + n <= |path| && len <= len' < MAX && len' == |Closed(old(out[..len]))| + n
    ensures out[..len'] == Closed(old(out[..len])) + path[p..p + n]
    ensures '/' !in path[p..p + n] && (At(path, p + n) == '/' || p + n == |path| || len' == MAX - 1)
  {
    len' := len;
    if out[len - 1] != '/' {
      out[len] := '/';
      len' := len + 1;
    }
    assert out[..len'] == Closed(old(out[..len]));
    n := CopyComponent(path, p, out, len');
    len' := len' + n;
  }

  function Closed(s: string): (r: string)
    ensures r != "" && r[|r| - 1] == '/' && s <= r && |r| <= |s| + 1
    ensures |r| == |s| <==> s != "" && s[|s| - 1] == '/'
  {
    if s != "" && s[|s| - 1] == '/' then s else s + "/"
  }

  lemma CanonicalGrow(s: string, closed: string, c: string)
    requires Canonical(s) && closed == Closed(s) && '/' !in c
    ensures Canonical(closed + c)
  {
  }

  lemma {:induction false} LeadingIs(path: string, n: nat)
    requires n <= |path| && At(path, n) != '/' && forall i :: 0 <= i < n ==> path[i] == '/'
    ensures LeadingSlashes(path) == n
  {
    if n > 0 { LeadingIs(path[1..], n - 1); }
  }

  // ---------------------------------------------------------------- what resolution means

  /** The result has no "." and no "..", and resolving it again leads to the same place. */
  lemma ResolvedIsFixed(path: string)
    ensures Plain(Walk([], Components(path)))
    ensures Walk([], Walk([], Components(path))) == Walk([], Components(path))
  {
    FixedWalk(Components(path));
  }

  lemma FixedWalk(cs: seq<string>)
    ensures Plain(Walk([], cs)) && Walk([], Walk([], cs)) == Walk([], cs)
  {
    var w := Walk([], cs);
    WalkIsPlain([], cs);
    WalkPlain([], w);
    assert [] + w == w;
  }

  /** Resolving a path behind a resolved directory is walking on from there. */
  lemma WalkOn(wd: string, path: string)
    requires Plain(Components(wd))
    ensures Walk([], Components(wd + "/" + path)) == Walk(Components(wd), Components(path))
  {
    ComponentsJoin(wd, path);
    WalkFrom(Components(wd), Components(path));
  }

  lemma WalkFrom(a: seq<string>, b: seq<string>)
    requires Plain(a)
    ensures Walk([], a + b) == Walk(a, b)
  {
    WalkJoins([], a, b);
    WalkPlain([], a);
    assert [] + a == a;
  }

  /** Where a path leads from a working directory. */
  function Destination(wd: string, path: string): seq<string> {
    if At(path, 0) == '/' then Walk([], Components(path)) else Walk(Components(wd), Components(path))
  }

  function Absolute(wd: string, path: string): string {
    if At(path, 0) == '/' then path else Closed(wd) + path
  }

  lemma AbsoluteLeads(wd: string, path: string)
    requires Canonical(wd) && Plain(Components(wd))
    ensures Walk([], Components(Absolute(wd, path))) == Destination(wd, path)
    ensures At(Absolute(wd, path), 0) == '/'
  {
    if At(path, 0) != '/' {
      if wd[|wd| - 1] == '/' {
        var front := wd[..|wd| - 1];
        assert wd == front + "/" + "" && Closed(wd) + path == front + "/" + path;
        ComponentsJoin(front, "");
        assert Components(front) == Components(wd);
        WalkOn(front, path);
      } else {
        assert Closed(wd) + path == wd + "/" + path;
        WalkOn(wd, path);
      }
    }
  }

  function Cut(s: string): (r: string)
    ensures r <= s && |r| == Min(|s|, MAX - 1)
  {
    if |s| < MAX then s else s[..MAX - 1]
  }

  /** One copying loop of `make_absolute`. */
  method CopyString(s: string, out: array<char>, at: nat) returns (len: nat)
    requires CString(s) && at < MAX < out.Length
    modifies out
    ensures at <= len < MAX && out[..len] == Cut(old(out[..at]) + s) && out[MAX] == old(out[MAX])
  {
    var j := 0;
    while j < |s| && at + j < MAX - 1
      invariant j <= |s| && at + j < MAX && out[..at + j] == old(out[..at]) + s[..j] && out[MAX] == old(out[MAX])
    {
      out[at + j] := s[j];
      j := j + 1;
    }
    len := at + j;
    assert s[..j] == if j == |s| then s else s[..j];
  }

  /** A relative path behind a working directory that leaves no room for a slash. */
  predicate NoRoom(wd: string, path: string) {
    At(path, 0) != '/' && |Closed(wd)| >= MAX
  }

  /**
   `make_absolute`. Place MAX of `out` is the byte behind the buffer of the code: it is overwritten, with
   the final zero, exactly if there is no room for the slash.
   */
  method MakeAbsolute(path: string, wd: string, out: array<char>) returns (len: nat)
    requires CString(path) && CString(wd) && |wd| < MAX < out.Length
    modifies out
    ensures NoRoom(wd, path) ==> len == MAX && out[MAX] == '\0' && out[..MAX] == Closed(wd)
    ensures !NoRoom(wd, path) ==> len < MAX && out[len] == '\0' && out[..len] == Cut(Absolute(wd, path)) && out[MAX] == old(out[MAX])
  {
    if At(path, 0) == '/' {
      len := CopyFirst(path, out);
    } else {
      len := CopyFirst(wd, out);
      CutShort(wd);
      if len == 0 || out[len - 1] != '/' {
        out[len] := '/';
        len := len + 1;
      }
      assert out[..len] == Closed(wd);
      if len < MAX { len := CopyString(path, out, len); }
    }
    out[len] := '\0';
  }

  method CopyFirst(s: string, out: array<char>) returns (len: nat)
    requires CString(s) && MAX < out.Length
    modifies out
    ensures len < MAX && out[..len] == Cut(s) && out[MAX] == old(out[MAX])
  {
    len := CopyString(s, out, 0);
    assert out[..len] == Cut("" + s);
    assert "" + s == s;
  }

  lemma CutShort(s: string)
    requires |s| < MAX
    ensures Cut(s) == s
  {
  }

  lemma CutFits(s: string)
    requires At(s, 0) == '/'
    ensures Fits(Cut(s))
  {
    assert LeadingSlashes(Cut(s)) >= 1;
  }

  datatype Stat = Directory | Other | Missing(error: int)

  class Task {
    var wd: string

    /** The working directory is always a resolved path. */
    ghost predicate Valid()
      reads this
    {
      CString(wd) && Canonical(wd) && Plain(Components(wd)) && |wd| < MAX
    }

    constructor ()
      ensures Valid() && wd == "/"
    {
      wd := "/";
      assert Components("/") == [];
    }

    /**
     `chdir`, with what `stat` says of the resolved path. None is the write behind the buffer of
     `make_absolute`, after which nothing is promised.
     */
    method Chdir(path: string, stat: Stat) returns (r: Option<int>)
      requires Valid() && CString(path)
      requires stat.Missing? ==> stat.error < 0
      modifies this
      ensures Valid()
      ensures r.None? <==> NoRoom(old(wd), path)
      ensures r.Some? ==> r.value == match stat { case Directory => 0 case Other => -20 case Missing(e) => e }
      ensures r != Some(0) ==> wd == old(wd)
      ensures r == Some(0) ==> Components(wd) == Walk([], Components(Cut(Absolute(old(wd), path))))
      ensures r == Some(0) && |Absolute(old(wd), path)| < MAX ==> Components(wd) == Destination(old(wd), path)
    {
      var absolute := new char[MAX + 1](_ => '\0');
      var resolved := new char[MAX](_ => '\0');
      var n := MakeAbsolute(path, wd, absolute);
      if n == MAX { return None; }
      AbsoluteLeads(wd, path);
      var full := absolute[..n];
      CutFits(Absolute(wd, path));
      CutIsString(Absolute(wd, path));
      var len := ResolvePath(full, resolved);
      ResolvedIsFixed(full);
      match stat {
        case Missing(e) => r := Some(e);
        case Other => r := Some(-20);
        case Directory =>
          wd := resolved[..len];
          r := Some(0);
      }
    }
  }

  // ---------------------------------------------------------------- the directory without room

  function Letters(n: nat): (s: string)
    ensures |s| == n && forall i :: 0 <= i < n ==> s[i] == 'a'
  {
    seq(n, _ => 'a')
  }

  /** `k` directories with names of 255 letters, the most that files in memory can have, in each other. */
  function Nested(k: nat): (s: string)
    ensures |s| == 256 * k && CString(s) && (k > 0 ==> s[0] == '/')
  {
    if k == 0 then "" else Nested(k - 1) + "/" + Letters(255)
  }

  lemma {:induction false} NestedComponents(k: nat)
    ensures |Components(Nested(k))| == k && forall i :: 0 <= i < k ==> Components(Nested(k))[i] == Letters(255)
  {
    if k > 0 {
      NestedComponents(k - 1);
      ComponentsJoin(Nested(k - 1), Letters(255));
      ComponentsOne(Letters(255));
    }
  }

  /** The length of a path that has a slash before each component. */
  function Size(cs: seq<string>): nat {
    if cs == [] then 0 else |cs[0]| + 1 + Size(cs[1..])
  }

  lemma {:induction false} SizeJoins(a: seq<string>, b: seq<string>)
    ensures Size(a + b) == Size(a) + Size(b)
  {
    if a == [] {
      assert a + b == b;
    } else {
      assert (a + b)[1..] == a[1..] + b;
      SizeJoins(a[1..], b);
    }
  }

  lemma {:induction false} SizeOfEqual(cs: seq<string>)
    requires forall i :: 0 <= i < |cs| ==> |cs[i]| == 255
    ensures Size(cs) == 256 * |cs|
  {
    if cs != [] { SizeOfEqual(cs[1..]); }
  }

  /** No path with these components is shorter. */
  lemma {:induction false} SizeFits(s: string)
    ensures Size(Components(s)) <= |s| + if s == "" || s[0] == '/' then 0 else 1
    decreases |s|
  {
    if s != "" {
      if s[0] == '/' {
        SizeFits(s[1..]);
      } else {
        SizeFits(s[Span(s)..]);
        assert Components(s)[1..] == Components(s[Span(s)..]);
      }
    }
  }

  /** A slash at the end makes it longer. */
  lemma FinalSlash(s: string)
    requires Canonical(s) && |s| >= 2 && s[|s| - 1] == '/'
    ensures Size(Components(s)) < |s|
  {
    var front := s[..|s| - 1];
    assert s == front + "/" + "";
    ComponentsJoin(front, "");
    assert Components(s) == Components(front);
    SizeFits(front);
  }

  function DeepPath(): (path: string)
    ensures |path| == MAX - 1 && CString(path) && path[0] == '/'
  {
    Nested(15) + "/" + Letters(254)
  }

  lemma NestedThen(k: nat, n: nat)
    requires 2 < n <= 255
    ensures var cs := Components(Nested(k) + "/" + Letters(n));
      && Plain(cs) && Size(cs) == 256 * k + n + 1 && (forall c :: c in cs ==> |c| <= 255)
  {
    NestedComponents(k);
    ComponentsJoin(Nested(k), Letters(n));
    ComponentsOne(Letters(n));
    SizeOfEqual(Components(Nested(k)));
    SizeJoins(Components(Nested(k)), [Letters(n)]);
  }

  lemma DeepComponents()
    ensures var cs := Components(DeepPath());
      && Plain(cs) && Walk([], cs) == cs && Size(cs) == MAX - 1 && (forall c :: c in cs ==> |c| <= 255)
  {
    NestedThen(15, 254);
    WalkPlain([], Components(DeepPath()));
  }

  lemma DeepHasNoRoom(wd: string)
    requires Canonical(wd) && |wd| < MAX && Components(wd) == Components(DeepPath())
    ensures |wd| == MAX - 1 && NoRoom(wd, "b") && forall c :: c in Components(wd) ==> |c| <= 255
  {
    DeepComponents();
    SizeFits(wd);
    if wd[|wd| - 1] == '/' { FinalSlash(wd); }
  }

  /**
   `chdir` itself can lead to a directory whose path has 4095 characters, with no name in it longer than
   255; the next relative `chdir` then writes behind the buffer.
   */
  method NoRoomIsReachable() returns (t: Task, ghost before: string, r: Option<int>)
    ensures |before| == MAX - 1 && (forall c :: c in Components(before) ==> |c| <= 255)
    ensures r.None?
  {
    t := new Task();
    DeepComponents();
    var first := t.Chdir(DeepPath(), Directory);
    before := t.wd;
    DeepHasNoRoom(before);
    r := t.Chdir("b", Directory);
  }

  lemma CutIsString(s: string)
    requires CString(s)
    ensures CString(Cut(s))
  {
  }
}
