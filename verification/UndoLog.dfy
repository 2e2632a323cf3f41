/** Undoing an installation: replaying the saved ranges in reverse gives back the original device. */
module UndoLog {
  import opened Common
  import opened DeviceCache
  import opened Patches

  /** Writing one saved range back. */
  function Apply(disk: seq<Byte>, e: Saved): (r: seq<Byte>)
    requires e.data == [] || e.loc + |e.data| <= |disk|
    ensures |r| == |disk|
  {
    if e.data == [] then disk else Patch(disk, e.loc, e.data)
  }

  predicate InRange(log: seq<Saved>, n: nat) {
    forall e :: e in log ==> e.data == [] || e.loc + |e.data| <= n
  }

  /** Writing the entries of a log back, first to last. */
  function Replay(disk: seq<Byte>, log: seq<Saved>): (r: seq<Byte>)
    requires InRange(log, |disk|)
    ensures |r| == |disk|
    decreases |log|
  {
    if log == [] then disk else Replay(Apply(disk, log[0]), log[1..])
  }

  function Reversed(log: seq<Saved>): (r: seq<Saved>)
    ensures |r| == |log| && forall e :: e in r <==> e in log
  {
    if log == [] then [] else [log[|log| - 1]] + Reversed(log[..|log| - 1])
  }

  /** The byte that the earliest entry covering position `p` has saved. */
  function Earliest(log: seq<Saved>, p: nat): Option<Byte> {
    if log == [] then None else
      var e := log[|log| - 1];
      var earlier := Earliest(log[..|log| - 1], p);
      if earlier.Some? then earlier
      else if e.loc <= p < e.loc + |e.data| then Some(e.data[p - e.loc]) else None
  }

  /**
   The state of an installation: what the log has saved first is original, and a byte that no
   entry covers is original on the disk and in the cache.
   */
  ghost predicate Journal(original: seq<Byte>, disk: seq<Byte>, logical: seq<Byte>, log: seq<Saved>) {
    && |original| == |disk| == |logical| && InRange(log, |disk|)
    && forall p: nat :: p < |original| ==>
         match Earliest(log, p)
         case Some(b) => b == original[p]
         case None => disk[p] == original[p] && logical[p] == original[p]
  }

  lemma JournalFlush(original: seq<Byte>, disk: seq<Byte>, logical: seq<Byte>, log: seq<Saved>, disk': seq<Byte>)
    requires Journal(original, disk, logical, log) && (disk' == disk || disk' == logical)
    ensures Journal(original, disk', logical, log)
  {
  }

  /** A logged write keeps the journal, wherever the cache was flushed during it. */
  lemma JournalWrite(original: seq<Byte>, disk: seq<Byte>, logical: seq<Byte>, log: seq<Saved>,
                     disk': seq<Byte>, logical': seq<Byte>, loc: nat, data: seq<Byte>, kept: seq<Byte>)
    requires Journal(original, disk, logical, log)
    requires Outside(disk, logical, disk', loc, |data|) && Patched(logical, logical', loc, data)
    requires |kept| == |data| && Sliced(logical, loc, kept)
    ensures Journal(original, disk', logical', log + [Saved(loc, kept)])
  {
    var e := Saved(loc, kept);
    assert (log + [e])[..|log|] == log;
  }

  /** Replaying a log in reverse leaves at every position what the earliest entry saved there. */
  lemma {:induction false} ReplayReversed(disk: seq<Byte>, log: seq<Saved>, p: nat)
    requires InRange(log, |disk|) && p < |disk|
    ensures Replay(disk, Reversed(log))[p] == match Earliest(log, p) case Some(b) => b case None => disk[p]
    decreases |log|
  {
    if log != [] {
      var init, e := log[..|log| - 1], log[|log| - 1];
      assert Reversed(log)[1..] == Reversed(init) && Reversed(log)[0] == e;
      ReplayReversed(Apply(disk, e), init, p);
    }
  }

  /** The undo property: from any point of an installation, the reversed log restores the original. */
  lemma UndoRestores(original: seq<Byte>, disk: seq<Byte>, logical: seq<Byte>, log: seq<Saved>)
    requires Journal(original, disk, logical, log)
    ensures Replay(disk, Reversed(log)) == original
  {
    forall p: nat | p < |disk| ensures Replay(disk, Reversed(log))[p] == original[p] {
      ReplayReversed(disk, log, p);
    }
  }

  /** Order matters: of two overlapping saves, replaying in recording order would bring back the later one. */
  lemma ForwardReplayIsWrong()
    ensures exists original, disk, logical, log ::
              Journal(original, disk, logical, log) && Replay(disk, log) != original
  {
    var log := [Saved(0, [1 as Byte]), Saved(0, [2 as Byte])];
    assert log[..1] == [log[0]] && log[..1][..0] == [];
    assert Earliest(log[..1], 0) == Some(1 as Byte);
    assert Journal([1], [3], [3], log);
    assert log[1..] == [log[1]] && log[1..][1..] == [];
    assert Replay([3], log) == Replay(Apply(Apply([3], log[0]), log[1]), []);
    assert Replay([3], log)[0] == 2;
  }

  /** `reverse_uninstall_data`. */
  method ReverseSaved(dev: Device)
    requires dev.Valid()
    modifies dev.saved, dev.savedRev
    ensures dev.Valid() && dev.Logical() == old(dev.Logical()) && dev.disk[..] == old(dev.disk[..])
    ensures dev.Log() == Reversed(old(dev.Log()))
  {
    ghost var log := dev.Log();
    var i := 0;
    while i < dev.savedCount
      invariant i <= dev.savedCount && dev.Valid()
      invariant dev.Log() == log && dev.Logical() == old(dev.Logical()) && dev.disk[..] == old(dev.disk[..])
      invariant forall l :: 0 <= l < i ==> dev.savedRev[dev.savedCount - 1 - l] == log[l]
    {
      dev.savedRev[dev.savedCount - 1 - i] := dev.saved[i];
      i := i + 1;
    }
    forall l | 0 <= l < dev.savedCount { dev.saved[l] := dev.savedRev[l]; }
    forall l | 0 <= l < |log| ensures dev.Log()[l] == Reversed(log)[l] { ReversedAt(log, l); }
  }

  lemma {:induction false} ReversedAt(log: seq<Saved>, l: nat)
    requires l < |log|
    ensures Reversed(log)[l] == log[|log| - 1 - l]
  {
    if l > 0 { ReversedAt(log[..|log| - 1], l - 1); }
  }

  predicate FitsAll(log: seq<Saved>, usable: nat) {
    forall e :: e in log ==> e.data == [] || e.loc + |e.data| <= usable
  }

  lemma {:induction false} ReplaySnoc(disk: seq<Byte>, log: seq<Saved>, i: nat)
    requires InRange(log, |disk|) && i < |log|
    ensures InRange(log[..i], |disk|) && InRange(log[..i + 1], |disk|)
    ensures Replay(disk, log[..i + 1]) == Apply(Replay(disk, log[..i]), log[i])
    decreases i
  {
    assert log[..i + 1][0] == log[0] && log[..i + 1][1..] == log[1..][..i];
    if i > 0 {
      assert log[..i][0] == log[0] && log[..i][1..] == log[1..][..i - 1];
      ReplaySnoc(Apply(disk, log[0]), log[1..], i - 1);
      assert log[1..][..i - 1 + 1] == log[1..][..i];
    }
  }

  /** One entry of `uninstall`, with its one retry after dropping the cache again. */
  method RestoreEntry(dev: Device, e: Saved) returns (ok: bool)
    requires dev.Valid() && dev.uninstalling
    modifies dev`cachedBlock, dev`dirty, dev`base, dev.disk, dev.cache
    ensures dev.Valid() && (ok <==> e.data == [] || e.loc + |e.data| <= dev.usable)
    ensures ok ==> dev.Logical() == Apply(old(dev.Logical()), e)
  {
    ok := dev.WriteBack(e.data, e.loc);
    if !ok {
      var flushed := dev.FlushCache();
      dev.dirty, dev.cachedBlock := false, None;
      ok := dev.WriteBack(e.data, e.loc);
    }
  }

  /** The first i entries have been tried: all fitted, and then the device is where they lead, or one did not. */
  ghost predicate Undone(start: seq<Byte>, log: seq<Saved>, i: nat, usable: nat, ok: bool, now: seq<Byte>) {
    && i <= |log|
    && forall z {:trigger Gate(z)} :: Gate(z) ==>
      && (ok <==> FitsAll(log[..i], usable))
      && (ok ==> InRange(log[..i], |start|) && now == Replay(start, log[..i]))
  }

  lemma UndoneNothing(start: seq<Byte>, log: seq<Saved>, usable: nat)
    ensures Undone(start, log, 0, usable, true, start)
  {
  }

  lemma UndoneStep(start: seq<Byte>, log: seq<Saved>, i: nat, usable: nat, ok: bool, before: seq<Byte>, done: bool, now: seq<Byte>)
    requires Undone(start, log, i, usable, ok, before) && i < |log| && usable <= |start| == |before|
    requires done <==> log[i].data == [] || log[i].loc + |log[i].data| <= usable
    requires done ==> now == Apply(before, log[i])
    ensures Undone(start, log, i + 1, usable, ok && done, now)
  {
    assert Gate(0);
    assert log[..i + 1] == log[..i] + [log[i]];
    if ok && done {
      assert log[..i + 1][..i] == log[..i] && log[..i + 1][..i + 1] == log[..i + 1];
      ReplaySnoc(start, log[..i + 1], i);
    }
  }

  lemma UndoneAll(start: seq<Byte>, log: seq<Saved>, usable: nat, ok: bool, now: seq<Byte>)
    requires Undone(start, log, |log|, usable, ok, now)
    ensures ok <==> FitsAll(log, usable)
    ensures ok ==> InRange(log, |start|) && now == Replay(start, log)
  {
    assert Gate(0);
    assert log[..|log|] == log;
  }

  /**
   `uninstall`: whatever is in the cache is dropped, the log is written back in its order and
   flushed. It succeeds when every entry fits the device.
   */
  method Uninstall(dev: Device) returns (ok: bool)
    requires dev.Valid()
    modifies dev`cachedBlock, dev`dirty, dev`base, dev`uninstalling, dev.disk, dev.cache
    ensures dev.Valid() && (ok <==> FitsAll(dev.Log(), dev.usable))
    ensures ok ==> InRange(dev.Log(), dev.disk.Length) && dev.disk[..] == Replay(old(dev.disk[..]), dev.Log())
  {
    ghost var log, start := dev.Log(), dev.disk[..];
    dev.uninstalling, dev.dirty, dev.cachedBlock := true, false, None;
    ok := true;
    var i := 0;
    UndoneNothing(start, log, dev.usable);
    while i < dev.savedCount
      invariant i <= dev.savedCount && dev.Valid() && dev.uninstalling && dev.Log() == log
      invariant Undone(start, log, i, dev.usable, ok, dev.Logical())
    {
      ghost var before := dev.Logical();
      var done := RestoreEntry(dev, dev.saved[i]);
      UndoneStep(start, log, i, dev.usable, ok, before, done, dev.Logical());
      if !done { ok := false; }
      i := i + 1;
    }
    UndoneAll(start, log, dev.usable, ok, dev.Logical());
    var flushed := dev.FlushCache();
    ok := ok && flushed;
  }

  /** What an installer does to the device between start and abort. */
  datatype Access = Read(loc: nat, count: nat) | Write(loc: nat, data: seq<Byte>) | Flush

  /** The access lies on the device, and a write finds room in the log. */
  predicate Possible(a: Access, usable: nat, logged: nat) {
    match a
    case Read(loc, count) => count == 0 || loc + count <= usable
    case Write(loc, data) => logged < LOG_MAX && (data == [] || loc + |data| <= usable)
    case Flush => true
  }

  /** What the bytes of a device are after some accesses. */
  function Written(bytes: seq<Byte>, accesses: seq<Access>): (r: seq<Byte>)
    ensures |r| == |bytes|
  {
    if accesses == [] then bytes else
      var before, a := Written(bytes, accesses[..|accesses| - 1]), accesses[|accesses| - 1];
      if a.Write? && a.data != [] && a.loc + |a.data| <= |bytes| then Patch(before, a.loc, a.data) else before
  }

  lemma WrittenOne(bytes: seq<Byte>, accesses: seq<Access>, i: nat, after: seq<Byte>)
    requires i < |accesses|
    requires accesses[i].Write? ==> Patched(Written(bytes, accesses[..i]), after, accesses[i].loc, accesses[i].data)
    requires !accesses[i].Write? ==> after == Written(bytes, accesses[..i])
    ensures after == Written(bytes, accesses[..i + 1])
  {
    assert accesses[..i + 1][..i] == accesses[..i];
  }

  /** An installation up to its first access that is not possible, or up to where it was told to stop: every write up to there has been made. */
  method Install(dev: Device, accesses: seq<Access>) returns (ok: bool, done: nat)
    requires dev.Valid() && !dev.uninstalling && !dev.dirty && dev.savedCount == 0
    modifies dev`cachedBlock, dev`dirty, dev`base, dev`savedCount, dev.disk, dev.cache, dev.saved
    ensures dev.Valid() && !dev.uninstalling && FitsAll(dev.Log(), dev.usable)
    ensures Journal(old(dev.disk[..]), dev.disk[..], dev.Logical(), dev.Log())
    ensures done <= |accesses| && dev.Logical() == Written(old(dev.disk[..]), accesses[..done])
    ensures ok <==> done == |accesses|
    ensures !ok ==> !Possible(accesses[done], dev.usable, dev.savedCount)
  {
    ghost var original := dev.disk[..];
    dev.CleanLogical();
    ok, done := true, 0;
    while done < |accesses|
      invariant done <= |accesses| && dev.Valid() && !dev.uninstalling && FitsAll(dev.Log(), dev.usable)
      invariant Journal(original, dev.disk[..], dev.Logical(), dev.Log())
      invariant dev.Logical() == Written(original, accesses[..done])
    {
      ghost var before := dev.Logical();
      var got;
      ok, got := Perform(dev, accesses[done], original);
      if !ok { return; }
      assert accesses[done].Write? || dev.Logical() == before;
      WrittenOne(original, accesses, done, dev.Logical());
      done := done + 1;
    }
    ok := true;
  }

  method Perform(dev: Device, a: Access, ghost original: seq<Byte>) returns (ok: bool, got: seq<Byte>)
    requires dev.Valid() && !dev.uninstalling && FitsAll(dev.Log(), dev.usable)
    requires Journal(original, dev.disk[..], dev.Logical(), dev.Log())
    modifies dev`cachedBlock, dev`dirty, dev`base, dev`savedCount, dev.disk, dev.cache, dev.saved
    ensures dev.Valid() && FitsAll(dev.Log(), dev.usable)
    ensures Journal(original, dev.disk[..], dev.Logical(), dev.Log())
    ensures ok <==> Possible(a, dev.usable, old(dev.savedCount))
    ensures ok && a.Write? ==> Patched(old(dev.Logical()), dev.Logical(), a.loc, a.data) && dev.savedCount == old(dev.savedCount) + 1
    ensures !(ok && a.Write?) ==> dev.Logical() == old(dev.Logical()) && dev.Log() == old(dev.Log())
    ensures a.Flush? ==> dev.disk[..] == dev.Logical()
    ensures ok && a.Read? ==> |got| == a.count && Sliced(dev.Logical(), a.loc, got)
  {
    ghost var disk, logical, log := dev.disk[..], dev.Logical(), dev.Log();
    got := [];
    match a {
      case Read(loc, count) =>
        ok, got := dev.ReadRaw(loc, count);
        JournalFlush(original, disk, logical, log, dev.disk[..]);
      case Write(loc, data) =>
        var kept;
        ok, kept := dev.WriteRaw(data, loc);
        if ok {
          JournalWrite(original, disk, logical, log, dev.disk[..], dev.Logical(), loc, data, kept);
        } else {
          JournalFlush(original, disk, logical, log, dev.disk[..]);
        }
      case Flush =>
        ok := dev.FlushCache();
        JournalFlush(original, disk, logical, log, dev.disk[..]);
    }
  }

  /**
   The cleanup path of a failed or abandoned installation, after any sequence of reads, overlapping
   writes and flushes: the device holds exactly its original bytes, dirty cache or not.
   */
  method InstallAndUndo(dev: Device, accesses: seq<Access>) returns (done: nat, ghost installed: seq<Byte>)
    requires dev.Valid() && !dev.uninstalling && !dev.dirty && dev.savedCount == 0
    modifies dev, dev.disk, dev.cache, dev.saved, dev.savedRev
    ensures dev.disk[..] == old(dev.disk[..])
    ensures done <= |accesses| && installed == Written(old(dev.disk[..]), accesses[..done])
    ensures done < |accesses| ==> exists logged :: !Possible(accesses[done], dev.usable, logged)
  {
    ghost var original := dev.disk[..];
    var ok;
    ok, done := Install(dev, accesses);
    installed := dev.Logical();
    ghost var disk, logical, log := dev.disk[..], dev.Logical(), dev.Log();
    ReverseSaved(dev);
    ok := Uninstall(dev);
    UndoRestores(original, disk, logical, log);
  }
}
