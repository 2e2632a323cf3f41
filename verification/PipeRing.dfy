/**
 Pipes (kernel/usermode/pipe.c): a ring buffer with two heads that behaves as a bounded queue of bytes,
 whatever reads and writes come between the passes of a writer that has to wait.
 */
module PipeRing {

  import opened Common

  type byte = bv8

  /** PIPE_SIZE */
  const SIZE: nat := 8184

  // ---------------------------------------------------------------- the queue

  datatype Queue = Queue(bytes: seq<byte>, readers: int, writers: int)

  /** The atomic things that happen to a pipe. */
  datatype Act =
    | Read(len: nat)
    | Put(src: seq<byte>)       // one pass of a writer: as much as there is room for
    | DropReader
    | DropWriter

  datatype Effect = Effect(queue: Queue, given: seq<byte>, taken: seq<byte>)

  predicate Bounded(q: Queue) {
    |q.bytes| < SIZE
  }

  function Do(q: Queue, act: Act): (e: Effect)
    requires Bounded(q)
    ensures Bounded(e.queue)
    ensures e.given + e.queue.bytes == q.bytes + e.taken
  {
    match act
    case Read(len) =>
      var n := Min(len, |q.bytes|);
      assert q.bytes == q.bytes[..n] + q.bytes[n..];
      Effect(q.(bytes := q.bytes[n..]), q.bytes[..n], [])
    case Put(src) =>
      var n := if q.readers == 0 then 0 else Min(|src|, SIZE - 1 - |q.bytes|);
      Effect(q.(bytes := q.bytes + src[..n]), [], src[..n])
    case DropReader => Effect(q.(readers := q.readers - 1), [], [])
    case DropWriter => Effect(q.(writers := q.writers - 1), [], [])
  }

  function DoAll(q: Queue, acts: seq<Act>): (e: Effect)
    requires Bounded(q)
    ensures Bounded(e.queue)
    decreases |acts|
  {
    if acts == [] then Effect(q, [], [])
    else
      var before := DoAll(q, acts[..|acts| - 1]);
      var last := Do(before.queue, acts[|acts| - 1]);
      Effect(last.queue, before.given + last.given, before.taken + last.taken)
  }

  /** First in, first out, over any run: what was read and what is still held is what was accepted. */
  lemma {:induction false} Fifo(q: Queue, acts: seq<Act>)
    requires Bounded(q)
    ensures var e := DoAll(q, acts); e.given + e.queue.bytes == q.bytes + e.taken && |e.queue.bytes| <= 8183
  {
    if acts != [] {
      var front := acts[..|acts| - 1];
      Fifo(q, front);
      var before := DoAll(q, front);
      var last := Do(before.queue, acts[|acts| - 1]);
      Regroup(q.bytes, before.given, before.queue.bytes, before.taken, last.given, last.queue.bytes, last.taken);
    }
  }

  lemma Regroup(q0: seq<byte>, g1: seq<byte>, q1: seq<byte>, t1: seq<byte>, g2: seq<byte>, q2: seq<byte>, t2: seq<byte>)
    requires g1 + q1 == q0 + t1 && g2 + q2 == q1 + t2
    ensures (g1 + g2) + q2 == q0 + (t1 + t2)
  {
    calc {
      (g1 + g2) + q2;
      g1 + (g2 + q2);
      (g1 + q1) + t2;
      q0 + (t1 + t2);
    }
  }

  lemma OneMore(q: Queue, acts: seq<Act>, i: nat)
    requires Bounded(q) && i < |acts|
    ensures DoAll(q, acts[..i + 1]).queue == Do(DoAll(q, acts[..i]).queue, acts[i]).queue
  {
    assert acts[..i + 1][..i] == acts[..i];
  }

  lemma {:induction false} DoAllJoins(q: Queue, a: seq<Act>, b: seq<Act>)
    requires Bounded(q)
    ensures DoAll(q, a + b).queue == DoAll(DoAll(q, a).queue, b).queue
    decreases |b|
  {
    if b == [] {
      assert a + b == a;
    } else {
      assert (a + b)[..|a + b| - 1] == a + b[..|b| - 1];
      DoAllJoins(q, a, b[..|b| - 1]);
    }
  }

  /** When a pass of a writer takes everything and when it takes nothing. */
  lemma PutTakes(q: Queue, src: seq<byte>)
    requires Bounded(q) && src != []
    ensures Do(q, Put(src)).taken == [] <==> q.readers == 0 || |q.bytes| == 8183
    ensures Do(q, Put(src)).taken == src <==> q.readers != 0 && |q.bytes| + |src| <= 8183
  {
    assert src[..|src|] == src;
  }

  // ---------------------------------------------------------------- what a waiting writer sees

  /** A turn of the others while a writer yields; before it the writer looks for pending signals. */
  datatype Turn = Signal | Others(acts: seq<Act>)

  datatype Piece = Mine(bytes: seq<byte>) | Theirs(acts: seq<Act>)

  function Acts(pieces: seq<Piece>): seq<Act> {
    if pieces == [] then []
    else Acts(pieces[..|pieces| - 1]) + match pieces[|pieces| - 1] case Mine(b) => [Put(b)] case Theirs(a) => a
  }

  function Written(pieces: seq<Piece>): seq<byte> {
    if pieces == [] then []
    else Written(pieces[..|pieces| - 1]) + match pieces[|pieces| - 1] case Mine(b) => b case Theirs(_) => []
  }

  function TheirActs(pieces: seq<Piece>): seq<Act> {
    if pieces == [] then []
    else TheirActs(pieces[..|pieces| - 1]) + match pieces[|pieces| - 1] case Mine(_) => [] case Theirs(a) => a
  }

  function TurnActs(turns: seq<Turn>): seq<Act> {
    if turns == [] then []
    else TurnActs(turns[..|turns| - 1]) + match turns[|turns| - 1] case Signal => [] case Others(a) => a
  }

  datatype ReadResult = Got(bytes: seq<byte>) | NothingYet

  datatype WriteResult = Wrote(n: nat) | EPIPE | EAGAIN | EINTR | Waiting

  // ---------------------------------------------------------------- the ring

  /** How many bytes lie between two heads. */
  function Span(from: nat, to: nat): nat
    requires from < SIZE
  {
    if from <= to then to - from else SIZE - from + to
  }

  /** The bytes from the read head up to the write head, around the end if need be. */
  ghost function Ring(buffer: seq<byte>, from: nat, to: nat): (r: seq<byte>)
    requires |buffer| == SIZE && from < SIZE && to < SIZE
    ensures |r| == Span(from, to)
  {
    if from <= to then buffer[from..to] else buffer[from..] + buffer[..to]
  }

  lemma RingDrop(buffer: seq<byte>, from: nat, to: nat, n: nat)
    requires |buffer| == SIZE && from < SIZE && to < SIZE && n <= |Ring(buffer, from, to)|
    ensures Ring(buffer, from, to)[n..] == Ring(buffer, Wrap(from + n), to)
    ensures from + n <= SIZE ==> Ring(buffer, from, to)[..n] == buffer[from..from + n]
    ensures from + n > SIZE ==> Ring(buffer, from, to)[..n] == buffer[from..SIZE] + buffer[..n - (SIZE - from)]
  {
    RingRest(buffer, from, to, n);
    if from > to && from + n > SIZE {
      assert (buffer[from..] + buffer[..to])[..n] == buffer[from..] + buffer[..n - (SIZE - from)];
    }
  }

  lemma RingRest(buffer: seq<byte>, from: nat, to: nat, n: nat)
    requires |buffer| == SIZE && from < SIZE && to < SIZE && n <= |Ring(buffer, from, to)|
    ensures Ring(buffer, from, to)[n..] == Ring(buffer, Wrap(from + n), to)
  {
    if from <= to {
      assert buffer[from..to][n..] == buffer[from + n..to];
    } else if from + n < SIZE {
      assert (buffer[from..] + buffer[..to])[n..] == buffer[from + n..] + buffer[..to];
    } else {
      assert (buffer[from..] + buffer[..to])[n..] == buffer[n - (SIZE - from)..to];
    }
  }

  /** `i % PIPE_SIZE` for the sums that occur. */
  function Wrap(i: nat): (r: nat)
    requires i < 2 * SIZE
    ensures r < SIZE
  {
    if i < SIZE then i else i - SIZE
  }

  method Modulo(i: nat) returns (r: nat)
    requires i < 2 * SIZE
    ensures r == Wrap(i)
  {
    r := i % SIZE;
  }

  /** A byte of the ring, by its place behind the read head. */
  lemma RingAt(buffer: seq<byte>, from: nat, to: nat, k: nat)
    requires |buffer| == SIZE && from < SIZE && to < SIZE && k < |Ring(buffer, from, to)|
    ensures Ring(buffer, from, to)[k] == if from + k < SIZE then buffer[from + k] else buffer[from + k - SIZE]
  {
  }

  /** `chunk` stands in the ring from the write head on, around the end if need be, and nothing else has changed. */
  ghost predicate Copied(before: seq<byte>, after: seq<byte>, to: nat, chunk: seq<byte>) {
    && |before| == |after| == SIZE && to < SIZE && |chunk| < SIZE
    && var first := Min(SIZE - to, |chunk|);
    && after[to..to + first] == chunk[..first]
    && (first < |chunk| ==> after[..|chunk| - first] == chunk[first..])
    && forall i :: (0 <= i < to && !(i < |chunk| - first)) || to + first <= i < SIZE ==> after[i] == before[i]
  }

  lemma RingGrow(before: seq<byte>, after: seq<byte>, from: nat, to: nat, chunk: seq<byte>)
    requires Copied(before, after, to, chunk) && from < SIZE && Span(from, to) + |chunk| < SIZE
    ensures Ring(after, from, Wrap(to + |chunk|)) == Ring(before, from, to) + chunk
  {
    SpanGrows(from, to, |chunk|);
    GrownOld(before, after, from, to, chunk, Ring(after, from, Wrap(to + |chunk|)), Ring(before, from, to));
    GrownNew(before, after, from, to, chunk, Ring(after, from, Wrap(to + |chunk|)));
    Concatenated(Ring(after, from, Wrap(to + |chunk|)), Ring(before, from, to), chunk);
  }

  lemma GrownOld(before: seq<byte>, after: seq<byte>, from: nat, to: nat, chunk: seq<byte>, a: seq<byte>, b: seq<byte>)
    requires Copied(before, after, to, chunk) && from < SIZE && Span(from, to) + |chunk| < SIZE
    requires a == Ring(after, from, Wrap(to + |chunk|)) && b == Ring(before, from, to) && |a| == |b| + |chunk|
    ensures forall k :: 0 <= k < |b| ==> a[k] == b[k]
  {
    forall k | 0 <= k < |b| ensures a[k] == b[k] { RingGrowOld(before, after, from, to, chunk, k); }
  }

  lemma GrownNew(before: seq<byte>, after: seq<byte>, from: nat, to: nat, chunk: seq<byte>, a: seq<byte>)
    requires Copied(before, after, to, chunk) && from < SIZE && Span(from, to) + |chunk| < SIZE
    requires a == Ring(after, from, Wrap(to + |chunk|)) && |a| == Span(from, to) + |chunk|
    ensures forall k {:trigger chunk[k]} :: 0 <= k < |chunk| ==> a[Span(from, to) + k] == chunk[k]
  {
    forall k {:trigger chunk[k]} | 0 <= k < |chunk| ensures a[Span(from, to) + k] == chunk[k] {
      PlacedIn(before, after, to, chunk, k);
      RingEnd(after, from, to, |chunk|, k);
    }
  }

  lemma Concatenated(a: seq<byte>, b: seq<byte>, c: seq<byte>)
    requires |a| == |b| + |c|
    requires forall k :: 0 <= k < |b| ==> a[k] == b[k]
    requires forall k {:trigger c[k]} :: 0 <= k < |c| ==> a[|b| + k] == c[k]
    ensures a == b + c
  {
    assert forall k :: |b| <= k < |a| ==> a[k] == c[k - |b|];
  }

  lemma SpanGrows(from: nat, to: nat, n: nat)
    requires from < SIZE && to < SIZE && Span(from, to) + n < SIZE
    ensures Span(from, Wrap(to + n)) == Span(from, to) + n
  {
  }

  lemma RingGrowOld(before: seq<byte>, after: seq<byte>, from: nat, to: nat, chunk: seq<byte>, k: nat)
    requires Copied(before, after, to, chunk) && from < SIZE && |Ring(before, from, to)| + |chunk| < SIZE && k < |Ring(before, from, to)|
    ensures k < |Ring(after, from, Wrap(to + |chunk|))| && Ring(after, from, Wrap(to + |chunk|))[k] == Ring(before, from, to)[k]
  {
    SpanGrows(from, to, |chunk|);
    RingAt(after, from, Wrap(to + |chunk|), k);
    RingAt(before, from, to, k);
  }

  /** The byte k places behind the old write head. */
  lemma RingEnd(after: seq<byte>, from: nat, to: nat, n: nat, k: nat)
    requires |after| == SIZE && from < SIZE && to < SIZE && Span(from, to) + n < SIZE && k < n
    ensures Span(from, to) + k < |Ring(after, from, Wrap(to + n))|
    ensures Ring(after, from, Wrap(to + n))[Span(from, to) + k] == after[if to + k < SIZE then to + k else to + k - SIZE]
  {
    SpanGrows(from, to, n);
    RingAt(after, from, Wrap(to + n), Span(from, to) + k);
  }

  lemma PlacedIn(before: seq<byte>, after: seq<byte>, to: nat, chunk: seq<byte>, k: nat)
    requires Copied(before, after, to, chunk) && k < |chunk|
    ensures chunk[k] == after[if to + k < SIZE then to + k else to + k - SIZE]
  {
    Placed(after, to, chunk, k);
  }

  lemma Placed(after: seq<byte>, to: nat, chunk: seq<byte>, k: nat)
    requires |after| == SIZE && to < SIZE && k < |chunk| < SIZE
    requires var first := Min(SIZE - to, |chunk|);
             after[to..to + first] == chunk[..first] && (first < |chunk| ==> after[..|chunk| - first] == chunk[first..])
    ensures chunk[k] == after[if to + k < SIZE then to + k else to + k - SIZE]
  {
    var first := Min(SIZE - to, |chunk|);
    if k < first {
      assert after[to..to + first][k] == after[to + k];
    } else {
      assert after[..|chunk| - first][k - first] == chunk[first..][k - first];
    }
  }

  class Pipe {
    const buffer: array<byte>
    var readHead: nat
    var writeHead: nat
    var readers: int
    var writers: int

    ghost var held: seq<byte>

    ghost predicate Valid()
      reads this, buffer
    {
      && buffer.Length == SIZE && readHead < SIZE && writeHead < SIZE
      && |held| == Span(readHead, writeHead)
      && (forall z {:trigger Gate(z)} :: Gate(z) ==> held == Ring(buffer[..], readHead, writeHead))
    }

    ghost function Model(): Queue
      reads this
    {
      Queue(held, readers, writers)
    }

    /** `create_pipe`; `kmalloc` clears the page. */
    constructor ()
      ensures Valid() && fresh(buffer) && Model() == Queue([], 1, 1)
    {
      buffer := new byte[SIZE](_ => 0);
      readHead, writeHead, readers, writers, held := 0, 0, 1, 1, [];
    }

    /** `pipe_read`: end of file only without writers. */
    method ReadFrom(len: nat) returns (r: ReadResult)
      requires Valid()
      modifies this`readHead, this`held
      ensures Valid() && held == old(held)[Min(len, |old(held)|)..]
      ensures r == if old(held) == [] && writers != 0 then NothingYet else Got(old(held)[..Min(len, |old(held)|)])
    {
      assert Gate(0);
      RingDrop(buffer[..], readHead, writeHead, Min(len, |held|));
      held := held[Min(len, |held|)..];
      if writeHead >= readHead {
        if writeHead == readHead {
          return if writers == 0 then Got([]) else NothingYet;
        }
        var n := Min(len, writeHead - readHead);
        r := Got(buffer[..][readHead..readHead + n]);
        readHead := readHead + n;
      } else {
        var most := Modulo(SIZE - readHead + writeHead);
        var n := Min(len, most);
        var first := Min(n, SIZE - readHead);
        r := Got(buffer[..][readHead..readHead + first]);
        readHead := Modulo(readHead + first);
        if first == n { return; }
        r := Got(r.bytes + buffer[..][..n - first]);
        readHead := Modulo(readHead + (n - first));
      }
    }

    method CopyIn(at: nat, src: seq<byte>)
      requires at + |src| <= buffer.Length
      modifies buffer
      ensures buffer[at..at + |src|] == src
      ensures forall i :: 0 <= i < buffer.Length && !(at <= i < at + |src|) ==> buffer[i] == old(buffer[i])
    {
      for i := 0 to |src|
        invariant forall j :: 0 <= j < buffer.Length ==> buffer[j] == if at <= j < at + i then src[j - at] else old(buffer[j])
      {
        buffer[at + i] := src[i];
      }
    }

    /** The two calls of `memcpy` in one pass of `pipe_write`. */
    method CopyChunk(chunk: seq<byte>)
      requires buffer.Length == SIZE && writeHead < SIZE && |chunk| < SIZE
      modifies buffer
      ensures Copied(old(buffer[..]), buffer[..], writeHead, chunk)
    {
      ghost var before := buffer[..];
      var first := Min(SIZE - writeHead, |chunk|);
      CopyIn(writeHead, chunk[..first]);
      ghost var middle := buffer[..];
      if |chunk| > first { CopyIn(0, chunk[first..]); }
      assert forall i :: writeHead <= i < writeHead + first ==> buffer[i] == middle[i];
      assert buffer[writeHead..writeHead + first] == middle[writeHead..writeHead + first];
    }

    method Append(chunk: seq<byte>)
      requires Valid() && |Model().bytes| + |chunk| < SIZE
      modifies this`writeHead, this`held, buffer
      ensures Valid() && Model() == old(Model()).(bytes := old(Model()).bytes + chunk)
    {
      assert Gate(0);
      ghost var before := buffer[..];
      CopyChunk(chunk);
      RingGrow(before, buffer[..], readHead, writeHead, chunk);
      SpanGrows(readHead, writeHead, |chunk|);
      writeHead := Modulo(writeHead + |chunk|);
      held := held + chunk;
    }

    /** One atomic act; another writer's pass is one `Put`. */
    method PerformOne(act: Act)
      requires Valid()
      modifies this, buffer
      ensures Valid() && Model() == Do(old(Model()), act).queue
      ensures readers == old(readers) - (if act.DropReader? then 1 else 0) && writers == old(writers) - (if act.DropWriter? then 1 else 0)
      ensures act.DropReader? || act.DropWriter? ==> held == old(held)
      ensures act.Read? ==> held == old(held)[Min(act.len, |old(held)|)..]
      ensures act.Put? ==> held == old(held) + if readers == 0 then [] else act.src[..Min(|act.src|, 8183 - |old(held)|)]
    {
      match act {
        case Read(len) => var _ := ReadFrom(len);
        case Put(src) =>
          if readers != 0 {
            var room := Room();
            Append(src[..Min(|src|, room)]);
          }
        case DropReader => readers := readers - 1;
        case DropWriter => writers := writers - 1;
      }
    }

    /** `available` in `pipe_write`: one slot always stays free. */
    method Room() returns (room: nat)
      requires Valid()
      ensures room == SIZE - 1 - |Model().bytes|
    {
      room := Modulo(readHead - writeHead - 1 + SIZE);
    }

    /** What the others do while a writer has yielded. */
    method Perform(acts: seq<Act>)
      requires Valid()
      modifies this, buffer
      ensures Valid() && Model() == DoAll(old(Model()), acts).queue
    {
      ghost var q := Model();
      for i := 0 to |acts|
        invariant Valid() && Model() == DoAll(q, acts[..i]).queue
      {
        PerformOne(acts[i]);
        OneMore(q, acts, i);
      }
      assert acts[..|acts|] == acts;
    }

    /** Yielding to the others. */
    method Await(acts: seq<Act>, ghost q0: Queue, ghost pieces: seq<Piece>, ghost src: seq<byte>, ghost written: nat, ghost turns: seq<Turn>, ghost used: nat)
      returns (ghost pieces': seq<Piece>)
      requires Valid() && Progress(q0, Model(), pieces, src, written, turns, used) && used < |turns| && turns[used] == Others(acts)
      requires |Model().bytes| == 8183
      modifies this, buffer
      ensures Valid() && Progress(q0, Model(), pieces', src, written, turns, used + 1)
    {
      pieces' := TheirTurn(q0, Model(), pieces, src, written, turns, used);
      Perform(acts);
    }

    /** One pass of the writer, for which there is room. */
    method Fill(src: seq<byte>, done: nat, n: nat, ghost q0: Queue, ghost pieces: seq<Piece>, ghost turns: seq<Turn>, ghost used: nat)
      returns (ghost pieces': seq<Piece>)
      requires Valid() && Progress(q0, Model(), pieces, src, done, turns, used) && readers != 0
      requires done + n <= |src| && |Model().bytes| + n < SIZE
      modifies this`writeHead, this`held, buffer
      ensures Valid() && Progress(q0, Model(), pieces', src, done + n, turns, used)
    {
      pieces' := MyPass(q0, Model(), pieces, src, done, turns, used, n);
      Append(src[done..done + n]);
    }

    /**
     `pipe_write`, on a pipe that others use whenever it yields. However often it has to wait, the whole
     is a run of atomic acts in which its own bytes go in once each and in order.
     */
    method WriteTo(src: seq<byte>, blocking: bool, turns: seq<Turn>)
      returns (r: WriteResult, ghost pieces: seq<Piece>, ghost written: nat, ghost used: nat)
      requires Valid()
      modifies this, buffer
      ensures Valid() && Progress(old(Model()), Model(), pieces, src, written, turns, used)
      ensures r.Wrote? <==> written == |src| || (written > 0 && (readers == 0 || !blocking))
      ensures r.Wrote? ==> r.n == written
      ensures r == EPIPE <==> written == 0 < |src| && readers == 0
      ensures r == EAGAIN <==> written == 0 < |src| && readers != 0 && !blocking
      ensures r == EINTR <==> written < |src| && readers != 0 && blocking && used < |turns| && turns[used].Signal?
      ensures r == Waiting <==> written < |src| && readers != 0 && blocking && used == |turns|
      ensures written < |src| && readers != 0 ==> |Model().bytes| == 8183
      ensures forall i :: 0 <= i < used ==> turns[i].Others?
      ensures !blocking ==> used == 0
    {
      pieces, written, used := [], 0, 0;
      NoProgress(Model(), src, turns);
      if |src| == 0 { return Wrote(0), pieces, 0, 0; }
      if readers == 0 { return EPIPE, pieces, 0, 0; }
      var done, turn := 0, 0;
      while done < |src|
        invariant Valid() && Progress(old(Model()), Model(), pieces, src, written, turns, used)
        invariant done == written && turn == used && (!blocking ==> used == 0)
        invariant forall i :: 0 <= i < used ==> turns[i].Others?
        decreases |turns| - turn, |src| - done
      {
        if readers == 0 { return (if done > 0 then Wrote(done) else EPIPE), pieces, written, used; }
        var available := Room();
        if available == 0 {
          if !blocking { return (if done > 0 then Wrote(done) else EAGAIN), pieces, written, used; }
          if turn == |turns| { return Waiting, pieces, written, used; }
          if turns[turn].Signal? { return EINTR, pieces, written, used; }
          pieces := Await(turns[turn].acts, old(Model()), pieces, src, written, turns, used);
          turn, used := turn + 1, used + 1;
        } else {
          var chunk := Min(|src| - done, available);
          pieces := Fill(src, done, chunk, old(Model()), pieces, turns, used);
          done, written := done + chunk, written + chunk;
        }
      }
      r := Wrote(done);
    }
  }

  /**
   A write with a signal pending at its first wait reports an error although bytes of it were accepted
   exactly if it may block, there is a reader, and the room there is, but not none, is less than it needs.
   */
  method InterruptedWrite(pipe: Pipe, src: seq<byte>, blocking: bool, turns: seq<Turn>)
    returns (r: WriteResult, ghost pieces: seq<Piece>, ghost written: nat)
    requires pipe.Valid() && turns != [] && turns[0].Signal?
    modifies pipe, pipe.buffer
    ensures pipe.Valid() && written <= |src| && pipe.Model() == old(pipe.Model()).(bytes := old(pipe.held) + src[..written])
    ensures !r.Wrote? && written > 0 <==> blocking && old(pipe.readers) != 0 && 0 < 8183 - |old(pipe.held)| < |src|
    ensures !r.Wrote? && written > 0 ==> r == EINTR && |old(pipe.held)| + written == 8183
  {
    ghost var used;
    ghost var q, first := pipe.Model(), turns[0];
    r, pieces, written, used := pipe.WriteTo(src, blocking, turns);
    Alone(q, pipe.Model(), pieces, src, written, turns);
    assert |pipe.Model().bytes| == |q.bytes| + written;
  }

  /** The others have their turns only when the pipe is full. */
  ghost predicate YieldsWhenFull(q0: Queue, pieces: seq<Piece>)
    requires Bounded(q0)
  {
    forall i :: 0 <= i < |pieces| && pieces[i].Theirs? ==> |DoAll(q0, Acts(pieces[..i])).queue.bytes| == 8183
  }

  lemma StillWhenFull(q0: Queue, pieces: seq<Piece>, p: Piece)
    requires Bounded(q0) && YieldsWhenFull(q0, pieces)
    requires p.Theirs? ==> |DoAll(q0, Acts(pieces)).queue.bytes| == 8183
    ensures YieldsWhenFull(q0, pieces + [p])
  {
    forall i | 0 <= i < |pieces + [p]| && (pieces + [p])[i].Theirs? ensures |DoAll(q0, Acts((pieces + [p])[..i])).queue.bytes| == 8183 {
      assert (pieces + [p])[..i] == pieces[..i];
      if i == |pieces| { assert pieces[..i] == pieces; }
    }
  }

  /** The first part of a write and what the others have done meanwhile, as one run of atomic acts. */
  ghost predicate Progress(q0: Queue, q: Queue, pieces: seq<Piece>, src: seq<byte>, written: nat, turns: seq<Turn>, used: nat) {
    && Bounded(q0) && written <= |src| && used <= |turns|
    && forall z {:trigger Gate(z)} :: Gate(z) ==>
      && q == DoAll(q0, Acts(pieces)).queue
      && Written(pieces) == src[..written]
      && TheirActs(pieces) == TurnActs(turns[..used])
      && YieldsWhenFull(q0, pieces)
      && (used == 0 ==> q == q0.(bytes := q0.bytes + src[..written]))
  }

  /** Without a turn of the others, the write has appended the bytes it counts. */
  lemma Alone(q0: Queue, q: Queue, pieces: seq<Piece>, src: seq<byte>, written: nat, turns: seq<Turn>)
    requires Progress(q0, q, pieces, src, written, turns, 0)
    ensures q == q0.(bytes := q0.bytes + src[..written])
  {
    assert Gate(0);
  }

  lemma NoProgress(q: Queue, src: seq<byte>, turns: seq<Turn>)
    requires Bounded(q)
    ensures Progress(q, q, [], src, 0, turns, 0)
  {
    assert turns[..0] == [] && src[..0] == [];
  }

  ghost function MyPass(q0: Queue, q: Queue, pieces: seq<Piece>, src: seq<byte>, written: nat, turns: seq<Turn>, used: nat, n: nat): (r: seq<Piece>)
    requires Progress(q0, q, pieces, src, written, turns, used)
    requires q.readers != 0 && written + n <= |src| && |q.bytes| + n < SIZE
    ensures Progress(q0, q.(bytes := q.bytes + src[written..written + n]), r, src, written + n, turns, used)
  {
    assert Gate(0);
    var chunk := src[written..written + n];
    DoAllJoins(q0, Acts(pieces), [Put(chunk)]);
    OnePut(q, chunk);
    assert src[..written] + chunk == src[..written + n];
    assert (q0.bytes + src[..written]) + chunk == q0.bytes + (src[..written] + chunk);
    StillWhenFull(q0, pieces, Mine(chunk));
    AddPiece(pieces, Mine(chunk))
  }

  ghost function TheirTurn(q0: Queue, q: Queue, pieces: seq<Piece>, src: seq<byte>, written: nat, turns: seq<Turn>, used: nat): (r: seq<Piece>)
    requires Progress(q0, q, pieces, src, written, turns, used) && used < |turns| && turns[used].Others? && |q.bytes| == 8183
    ensures Bounded(q) && Progress(q0, DoAll(q, turns[used].acts).queue, r, src, written, turns, used + 1)
  {
    assert Gate(0);
    DoAllJoins(q0, Acts(pieces), turns[used].acts);
    assert turns[..used + 1][..used] == turns[..used];
    StillWhenFull(q0, pieces, Theirs(turns[used].acts));
    AddPiece(pieces, Theirs(turns[used].acts))
  }

  ghost function AddPiece(pieces: seq<Piece>, p: Piece): (r: seq<Piece>)
    ensures Acts(r) == Acts(pieces) + match p case Mine(b) => [Put(b)] case Theirs(a) => a
    ensures Written(r) == Written(pieces) + match p case Mine(b) => b case Theirs(_) => []
    ensures TheirActs(r) == TheirActs(pieces) + match p case Mine(_) => [] case Theirs(a) => a
    ensures r == pieces + [p]
  {
    assert (pieces + [p])[..|pieces|] == pieces;
    pieces + [p]
  }

  lemma OnePut(q: Queue, b: seq<byte>)
    requires Bounded(q) && q.readers != 0 && |q.bytes| + |b| < SIZE
    ensures DoAll(q, [Put(b)]).queue == q.(bytes := q.bytes + b)
  {
    assert b[..|b|] == b;
    assert DoAll(q, [Put(b)][..0]).queue == q;
  }
}
