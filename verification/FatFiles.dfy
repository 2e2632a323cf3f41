/**
 Files of a FAT volume as chains of clusters (kernel/fs/fat.c): reading, and the branch of
 `fat_truncate` that shortens a file.
 */
module FatFiles {

  import opened Common
  import opened FatTables
  import opened Patches
  import opened Rows
  import TailRing

  // ---------------------------------------------------------------- chains

  /** The chain of a file as `next_cluster` follows it, without the reserved bits. */
  ghost predicate Chain(g: Layout, fat: seq<word>, chain: seq<nat>) {
    && |chain| > 0 && Distinct(chain)
    && (forall k :: 0 <= k < |chain| ==> 2 <= chain[k] < g.limit && chain[k] < |fat|)
    && (forall k :: 0 <= k < |chain| - 1 ==> Low(fat[chain[k]]) == chain[k + 1])
    && Low(fat[chain[|chain| - 1]]) >= END
  }

  /** None of its links has a reserved bit set. */
  ghost predicate Plain(fat: seq<word>, chain: seq<nat>)
    requires forall k :: 0 <= k < |chain| ==> chain[k] < |fat|
  {
    forall k :: 0 <= k < |chain| - 1 ==> High(fat[chain[k]]) == 0
  }

  /** How far `fat_truncate` gets from place m on: it compares links with the reserved bits still in. */
  function Stop(g: Layout, fat: seq<word>, chain: seq<nat>, m: nat): (r: nat)
    requires m < |chain| && forall k :: 0 <= k < |chain| ==> chain[k] < |fat|
    ensures m <= r < |chain|
    decreases |chain| - m
  {
    if m == |chain| - 1 || fat[chain[m]] >= END then m else Stop(g, fat, chain, m + 1)
  }

  /** It reaches the end exactly when no link has a reserved bit set. */
  lemma {:induction false} StopsAtEnd(g: Layout, fat: seq<word>, chain: seq<nat>, m: nat)
    requires Chain(g, fat, chain) && g.limit < END && m < |chain|
    ensures Stop(g, fat, chain, m) == |chain| - 1 <==> forall k :: m <= k < |chain| - 1 ==> High(fat[chain[k]]) == 0
    decreases |chain| - m
  {
    if m < |chain| - 1 {
      assert Low(fat[chain[m]]) == chain[m + 1] < END;
      if fat[chain[m]] < END {
        StopsAtEnd(g, fat, chain, m + 1);
        assert High(fat[chain[m]]) == 0;
      } else {
        assert High(fat[chain[m]]) != 0;
      }
    }
  }

  // ---------------------------------------------------------------- contents

  /** `n` sectors from `s` on, one after the other. */
  function Sectors(disk: Disk, s: nat, n: nat): (r: seq<byte>)
    requires s + n <= |disk| && forall i :: 0 <= i < |disk| ==> |disk[i]| == 512
    ensures |r| == 512 * n
  {
    if n == 0 then [] else Sectors(disk, s, n - 1) + disk[s + n - 1]
  }

  /** Bytes of sectors are read in their order. */
  lemma {:induction false} SectorByte(disk: Disk, s: nat, n: nat, i: nat, j: nat)
    requires s + n <= |disk| && (forall k :: 0 <= k < |disk| ==> |disk[k]| == 512) && i < n && j < 512
    ensures 512 * i + j < |Sectors(disk, s, n)| && Sectors(disk, s, n)[512 * i + j] == disk[s + i][j]
  {
    if i < n - 1 { SectorByte(disk, s, n - 1, i, j); }
  }

  lemma ClusterOnDisk(g: Layout, disk: Disk, c: nat)
    requires Formatted(g, disk) && 2 <= c < g.limit
    ensures DataStart(g) <= FirstSector(g, c) && FirstSector(g, c) + g.perCluster <= |disk|
  {
    RowsApart(c - 2, g.limit - 2, g.perCluster);
  }

  lemma ClustersApart(g: Layout, c: nat, d: nat)
    requires 2 <= c && 2 <= d && c != d
    ensures FirstSector(g, c) + g.perCluster <= FirstSector(g, d) || FirstSector(g, d) + g.perCluster <= FirstSector(g, c)
  {
    if c < d { RowsApart(c - 2, d - 2, g.perCluster); } else { RowsApart(d - 2, c - 2, g.perCluster); }
  }

  function Cluster(g: Layout, disk: Disk, c: nat): (r: seq<byte>)
    requires Formatted(g, disk) && 2 <= c < g.limit
    ensures |r| == 512 * g.perCluster
  {
    ClusterOnDisk(g, disk, c);
    Sectors(disk, FirstSector(g, c), g.perCluster)
  }

  ghost predicate OnDisk(g: Layout, chain: seq<nat>) {
    forall k :: 0 <= k < |chain| ==> 2 <= chain[k] < g.limit
  }

  /** The bytes of a chain. */
  ghost function Content(g: Layout, disk: Disk, chain: seq<nat>): (r: seq<byte>)
    requires Formatted(g, disk) && OnDisk(g, chain)
  {
    if chain == [] then [] else Cluster(g, disk, chain[0]) + Content(g, disk, chain[1..])
  }

  lemma {:induction false} SectorsSame(disk: Disk, disk': Disk, s: nat, n: nat)
    requires |disk| == |disk'| && s + n <= |disk| && forall i :: 0 <= i < |disk| ==> |disk[i]| == |disk'[i]| == 512
    requires forall i :: s <= i < s + n ==> disk[i] == disk'[i]
    ensures Sectors(disk, s, n) == Sectors(disk', s, n)
  {
    if n > 0 { SectorsSame(disk, disk', s, n - 1); }
  }

  lemma {:induction false} ContentSame(g: Layout, disk: Disk, disk': Disk, chain: seq<nat>)
    requires Formatted(g, disk) && Formatted(g, disk') && OnDisk(g, chain)
    requires forall k :: 0 <= k < |chain| ==> Cluster(g, disk, chain[k]) == Cluster(g, disk', chain[k])
    ensures Content(g, disk, chain) == Content(g, disk', chain)
  {
    if chain != [] {
      assert Cluster(g, disk, chain[0]) == Cluster(g, disk', chain[0]);
      assert forall k :: 0 <= k < |chain[1..]| ==> chain[1..][k] == chain[k + 1];
      ContentSame(g, disk, disk', chain[1..]);
    }
  }

  lemma {:induction false} ContentJoins(g: Layout, disk: Disk, a: seq<nat>, b: seq<nat>)
    requires Formatted(g, disk) && OnDisk(g, a) && OnDisk(g, b)
    ensures OnDisk(g, a + b) && Content(g, disk, a + b) == Content(g, disk, a) + Content(g, disk, b)
  {
    if a == [] {
      assert a + b == b;
    } else {
      assert (a + b)[1..] == a[1..] + b;
      ContentJoins(g, disk, a[1..], b);
    }
  }

  lemma {:induction false} ContentSize(g: Layout, disk: Disk, chain: seq<nat>)
    requires Formatted(g, disk) && OnDisk(g, chain)
    ensures |Content(g, disk, chain)| == Times(|chain|, 512 * g.perCluster)
  {
    if chain != [] { ContentSize(g, disk, chain[1..]); }
  }

  // ---------------------------------------------------------------- the volume

  /** There is a copy of the table, and the others agree with it in the low 28 bits. */
  ghost predicate Agreeing(g: Layout, disk: Disk)
    requires Formatted(g, disk)
  {
    && g.numFats > 0
    && forall i, c :: 0 <= i < g.numFats && 0 <= c < 128 * g.fatSize ==>
      (FatSectorFacts(g, disk, i, c); FatSectorFacts(g, disk, 0, c); Low(Entry(g, disk, i, c)) == Low(Entry(g, disk, 0, c)))
  }

  /** Blank sectors are a volume with no file on it. */
  lemma BlankVolume(g: Layout, disk: Disk)
    requires 1 <= g.perCluster < 256 && 2 <= g.limit <= 128 * g.fatSize && g.limit < END && g.numFats > 0
    requires |disk| == FirstSector(g, g.limit) && forall s :: 0 <= s < |disk| ==> disk[s] == Fill(512, 0)
    ensures Formatted(g, disk) && Agreeing(g, disk)
    ensures forall c :: 0 <= c < 128 * g.fatSize ==> FatSector(g, 0, c) < |disk| && Entry(g, disk, 0, c) == FREE
  {
    forall i, c | 0 <= i < g.numFats && 0 <= c < 128 * g.fatSize ensures FatSector(g, i, c) < |disk| && Entry(g, disk, i, c) == FREE {
      FatSectorFacts(g, disk, i, c);
      assert disk[FatSector(g, i, c)] == Fill(512, 0);
    }
  }

  datatype ReadResult = Bytes(bytes: seq<byte>) | EndOfChain

  class Volume {
    const g: Layout
    const disk: array<seq<byte>>
    const fat: array<word>

    ghost predicate Valid()
      reads this, disk, fat
    {
      && (disk as object) != (fat as object)
      && fat.Length == 128 * g.fatSize
      && Formatted(g, disk[..])
      && forall z {:trigger Gate(z)} :: Gate(z) ==> Mirrored(g, disk[..], fat[..])
    }

    /** `fat_mount` caches the first copy of the table of a volume whose copies agree. */
    constructor (layout: Layout, image: array<seq<byte>>)
      requires Formatted(layout, image[..]) && Agreeing(layout, image[..])
      ensures Valid() && g == layout && disk == image && fresh(fat)
      ensures forall c :: 0 <= c < fat.Length ==> FatSector(g, 0, c) < disk.Length && fat[c] == Entry(g, disk[..], 0, c)
    {
      g, disk := layout, image;
      fat := new word[128 * layout.fatSize];
      new;
      for c := 0 to fat.Length
        invariant forall d :: 0 <= d < c ==> FatSector(g, 0, d) < disk.Length && fat[d] == Entry(g, disk[..], 0, d)
      {
        FatSectorFacts(g, disk[..], 0, c);
        fat[c] := Entry(g, disk[..], 0, c);
      }
    }

    method ReadSectors(s: nat, n: nat) returns (r: seq<byte>)
      requires s + n <= disk.Length && forall i :: 0 <= i < disk.Length ==> |disk[i]| == 512
      ensures r == Sectors(disk[..], s, n)
    {
      r := [];
      for i := 0 to n
        invariant r == Sectors(disk[..], s, i)
      {
        r := r + disk[s + i];
      }
    }

    /** One round of the loop of `write_fat`: read a sector of one copy, change an entry, write it back. */
    method PutEntry(copy: nat, c: nat, content: word)
      requires Formatted(g, disk[..]) && copy < g.numFats && c < 128 * g.fatSize
      modifies disk
      ensures disk[..] == WriteCopy(g, old(disk[..]), copy, c, content)
    {
      FatSectorFacts(g, disk[..], copy, c);
      var offset := c * 4;
      var fatSector := g.reserved + offset / 512;
      var entOffset := offset % 512;
      var s := fatSector + Times(copy, g.fatSize);
      var buffer := disk[s];
      disk[s] := PutWord(buffer, entOffset, Merge(Word(buffer, entOffset), content));
    }

    /** `write_fat` */
    method WriteFat(c: nat, content: word)
      requires Valid() && c < fat.Length
      modifies disk, fat
      ensures Valid() && fat[..] == old(fat[..])[c := content]
      ensures Beside(g, old(disk[..]), disk[..])
    {
      assert Gate(0);
      BesideSelf(g, disk[..]);
      BesideWrite(g, disk[..], disk[..], c, content);
      WriteFatMirrors(g, disk[..], fat[..], c, content);
      fat[c] := content;
      ghost var was := old(disk[..]);
      assert disk[..] == was;
      for i := 0 to g.numFats
        invariant disk[..] == WriteCopies(g, was, i, c, content)
        modifies disk
      {
        PutEntry(i, c, content);
      }
    }

    // -------------------------------------------------------------- reading

    /** `next_cluster` */
    function Next(c: nat): word
      requires c < fat.Length
      reads this, fat
    {
      Low(fat[c])
    }

    /** The copying loop of `fat_read` within one cluster. */
    method Take(cluster: seq<byte>, from: nat, most: nat) returns (r: seq<byte>)
      requires from <= |cluster|
      ensures r == cluster[from..from + Min(most, |cluster| - from)]
    {
      r := [];
      var k := from;
      while k < |cluster| && |r| < most
        invariant from <= k <= |cluster| && |r| == k - from <= most && r == cluster[from..k]
      {
        r := r + [cluster[k]];
        k := k + 1;
      }
    }

    /** The first loop of `fat_read`: the cluster in which `offset` lies, and where in it. */
    method Skip(first: nat, offset: nat, ghost chain: seq<nat>) returns (found: bool, current: nat, rest: nat, ghost k: nat)
      requires Valid() && Chain(g, fat[..], chain) && chain[0] == first
      ensures found ==> k < |chain| && current == chain[k] && rest < 512 * g.perCluster && offset == Times(k, 512 * g.perCluster) + rest
      ensures !found ==> offset >= Times(|chain|, 512 * g.perCluster)
    {
      var clusterSize := g.perCluster * 512;
      found, current, rest, k := true, first, offset, 0;
      while rest >= clusterSize
        invariant k < |chain| && current == chain[k] && offset - rest == Times(k, clusterSize)
        decreases rest
      {
        current := Next(current);
        LinkAt(g, fat[..], chain, k);
        if current >= END { return false, current, rest, k; }
        rest := rest - clusterSize;
        k := k + 1;
      }
    }

    /**
     `fat_read` on a file whose directory entry names `first` and `fileSize`: the bytes of the chain from
     `offset` on, cut to the request, to the file size and to the chain, exactly if the end of the request
     does not wrap or nothing of the chain lies behind the file size.
     */
    method Read(first: nat, fileSize: nat, offset: nat, size: nat, ghost chain: seq<nat>) returns (r: ReadResult)
      requires Valid() && Chain(g, fat[..], chain) && chain[0] == first && fileSize < TOP32 && offset < TOP && size < TOP
      ensures OnDisk(g, chain)
      ensures r == ReadAs(Content(g, disk[..], chain), fileSize, offset, size)
      ensures r == ReadSpec(Content(g, disk[..], chain), fileSize, offset, size)
         <==> offset >= fileSize || offset + size < TOP || |Content(g, disk[..], chain)| <= fileSize
      ensures offset >= fileSize ==> r == Bytes([])
      ensures offset < fileSize && offset + size < TOP ==>
        (var all := Content(g, disk[..], chain);
         if offset >= |all| then r == EndOfChain
         else r == Bytes(all[offset..offset + Min(size, Min(fileSize - offset, |all| - offset))]))
    {
      ghost var all := Content(g, disk[..], chain);
      ChainBound(g, disk[..], fat[..], chain);
      if offset >= fileSize { return Bytes([]); }
      ReadRight(all, fileSize, offset, size);
      var n := if Unsigned(offset + size) > fileSize then fileSize - offset else size;
      var found, buffer := ReadFrom(first, offset, n, chain);
      r := if found then Bytes(buffer) else EndOfChain;
    }

    method ReadFrom(first: nat, offset: nat, n: nat, ghost chain: seq<nat>) returns (found: bool, buffer: seq<byte>)
      requires Valid() && Chain(g, fat[..], chain) && chain[0] == first
      ensures OnDisk(g, chain)
      ensures found <==> offset < |Content(g, disk[..], chain)|
      ensures found ==> buffer == First(Content(g, disk[..], chain)[offset..], n)
    {
      var current, rest;
      ghost var k;
      found, current, rest, k := Skip(first, offset, chain);
      if !found {
        ContentSize(g, disk[..], chain);
        return false, [];
      }
      Found(g, disk[..], chain, k, rest, offset);
      buffer := Gather(current, rest, n, chain, k);
    }

    /** The second loop of `fat_read`. */
    method Gather(first: nat, from: nat, n: nat, ghost chain: seq<nat>, ghost k0: nat) returns (buffer: seq<byte>)
      requires Valid() && Chain(g, fat[..], chain) && k0 < |chain| && first == chain[k0] && from < 512 * g.perCluster
      ensures buffer == First(Rest(g, disk[..], chain, k0, from), n)
    {
      var current, rest := first, from;
      ghost var k: nat := k0;
      buffer := [];
      ghost var d, tail := disk[..], Rest(g, disk[..], chain, k0, from);
      while |buffer| < n
        invariant 0 <= k < |chain| && current == chain[k] && 0 <= rest <= 512 * g.perCluster && |buffer| <= n
        invariant |buffer| < n ==> rest < 512 * g.perCluster
        invariant tail == buffer + Rest(g, d, chain, k, rest)
        decreases n - |buffer|
      {
        var piece := ReadPiece(current, rest, n - |buffer|, chain, k);
        Moved(tail, buffer, piece, Rest(g, d, chain, k, rest), Rest(g, d, chain, k, rest + |piece|));
        buffer, rest := buffer + piece, rest + |piece|;
        if |buffer| < n {
          current := Next(current);
          LinkAt(g, fat[..], chain, k);
          if current >= END { return; }
          k := k + 1;
          rest := 0;
        }
      }
    }

    /** One cluster of the second loop of `fat_read`. */
    method ReadPiece(current: nat, rest: nat, most: nat, ghost chain: seq<nat>, ghost k: nat) returns (piece: seq<byte>)
      requires Valid() && OnDisk(g, chain) && k < |chain| && current == chain[k] && rest < 512 * g.perCluster && most > 0
      ensures 0 < |piece| <= most && rest + |piece| <= 512 * g.perCluster
      ensures |piece| < most ==> rest + |piece| == 512 * g.perCluster && Rest(g, disk[..], chain, k, rest + |piece|) == Rest(g, disk[..], chain, k + 1, 0)
      ensures Rest(g, disk[..], chain, k, rest) == piece + Rest(g, disk[..], chain, k, rest + |piece|)
      ensures k + 1 == |chain| ==> Rest(g, disk[..], chain, k + 1, 0) == []
    {
      ClusterOnDisk(g, disk[..], current);
      var cluster := ReadSectors(FirstSector(g, current), g.perCluster);
      piece := Take(cluster, rest, most);
      PieceOf(g, disk[..], chain, k, rest, |piece|);
    }

    // -------------------------------------------------------------- shortening

    /** The ring of `fat_truncate` after the walk to the end of the chain. */
    method FindTail(first: nat, difference: nat, ghost chain: seq<nat>) returns (slots: array<nat>, head: nat)
      requires Valid() && Chain(g, fat[..], chain) && chain[0] == first
      ensures fresh(slots) && slots.Length == difference + 1
      ensures TailRing.Tail(slots[..], head, chain, Stop(g, fat[..], chain, 0), 0)
    {
      slots := new nat[difference + 1](_ => 0);
      slots[0] := first;
      head := 0;
      ghost var m := 0;
      TailRing.Start(slots[..], chain, 0);
      while true
        invariant m < |chain| && TailRing.Tail(slots[..], head, chain, m, 0)
        invariant Stop(g, fat[..], chain, 0) == Stop(g, fat[..], chain, m)
        decreases |chain| - m
      {
        assert slots[TailRing.Back(head, 0, slots.Length)] == chain[m];
        var next := fat[slots[head]];
        LinkAt(g, fat[..], chain, m);
        if next >= END { break; }
        LowIsAll(next);
        TailRing.Push(slots[..], head, chain, m, 0);
        head := TailRing.StepOn(head, difference);
        slots[head] := next;
        m := m + 1;
      }
    }

    method FreeOne(c: nat, ghost fat0: seq<word>, ghost disk0: Disk, ghost chain: seq<nat>, ghost m: nat, ghost i: nat)
      requires Valid() && m < |chain| && InTable(chain, |fat0|) && Distinct(chain) && |fat0| == fat.Length
      requires c == if i <= m then chain[m - i] else 0
      requires Freed(fat0, fat[..], chain, m, i) && Beside(g, disk0, disk[..])
      modifies disk, fat
      ensures Valid() && Freed(fat0, fat[..], chain, m, i + 1) && Beside(g, disk0, disk[..])
    {
      ghost var fat1, disk1 := fat[..], disk[..];
      WriteFat(c, FREE);
      BesideTrans(g, disk0, disk1, disk[..]);
      FreedStep(fat0, fat1, fat[..], chain, m, i);
    }

    /** The last loop of `fat_truncate`: it goes backwards through the ring, into slots never used if the walk was too short. */
    method FreeTail(slots: array<nat>, from: nat, difference: nat, ghost chain: seq<nat>, ghost m: nat)
      requires Valid() && slots.Length == difference + 1 && TailRing.Tail(slots[..], from, chain, m, 0)
      requires InTable(chain, fat.Length) && Distinct(chain)
      modifies disk, fat
      ensures Valid() && Beside(g, old(disk[..]), disk[..])
      ensures Freed(old(fat[..]), fat[..], chain, m, difference)
    {
      var head := from;
      ghost var fat0, disk0 := fat[..], disk[..];
      BesideSelf(g, disk0);
      for i := 0 to difference
        invariant Valid() && Beside(g, disk0, disk[..]) && head == TailRing.Back(from, i, difference + 1)
        invariant slots[..] == old(slots[..])
        invariant Freed(fat0, fat[..], chain, m, i)
      {
        TailRing.Behind(slots[..], from, chain, m, 0, i);
        FreeOne(slots[head], fat0, disk0, chain, m, i);
        TailRing.Backwards(from, i, difference + 1);
        head := TailRing.StepBack(head, difference);
      }
    }

    /** `write_sectors` */
    method WriteSectors(s: nat, n: nat, bytes: seq<byte>)
      requires s + n <= disk.Length && |bytes| == 512 * n && forall i :: 0 <= i < disk.Length ==> |disk[i]| == 512
      modifies disk
      ensures forall i :: 0 <= i < disk.Length ==> |disk[i]| == 512
      ensures forall i :: 0 <= i < disk.Length && !(s <= i < s + n) ==> disk[i] == old(disk[i])
      ensures Sectors(disk[..], s, n) == bytes
    {
      for i := 0 to n
        invariant forall j :: 0 <= j < disk.Length ==> |disk[j]| == 512
        invariant forall j :: 0 <= j < disk.Length && !(s <= j < s + i) ==> disk[j] == old(disk[j])
        invariant Sectors(disk[..], s, i) == bytes[..512 * i]
      {
        ghost var before := disk[..];
        disk[s + i] := bytes[512 * i..512 * (i + 1)];
        SectorsSame(before, disk[..], s, i);
        assert bytes[..512 * i] + bytes[512 * i..512 * (i + 1)] == bytes[..512 * (i + 1)];
      }
      assert bytes[..512 * n] == bytes;
    }

    /** Clearing what lies behind the new end of the file in its last cluster. */
    method ClearTail(c: nat, from: nat)
      requires Valid() && 2 <= c < g.limit && from <= 512 * g.perCluster
      modifies disk
      ensures Valid() && OnlyCluster(g, old(disk[..]), disk[..], c)
      ensures Cluster(g, disk[..], c) == Cleared(Cluster(g, old(disk[..]), c), from)
    {
      ghost var before := disk[..];
      assert Gate(0);
      ClusterOnDisk(g, before, c);
      var cluster := ReadSectors(FirstSector(g, c), g.perCluster);
      WriteSectors(FirstSector(g, c), g.perCluster, Cleared(cluster, from));
      OnlyClusterIf(g, before, disk[..], c);
      StillMirrored(g, before, disk[..], fat[..]);
    }

    /**
     `fat_truncate` up to writing the directory entry: the branch it takes for every pair of sizes, and the
     table that its shrinking branch leaves, however far the walk along the chain gets. The growing branch
     is not carried out.
     */
    method Truncate(first: nat, oldSize: nat, newSize: nat, ghost chain: seq<nat>) returns (branch: Branch, newFirst: nat, fileSize: nat)
      requires Valid() && Chain(g, fat[..], chain) && chain[0] == first && oldSize < TOP32 && newSize < TOP
      modifies disk, fat
      ensures Valid() && fileSize == Unsigned32(newSize) && branch == BranchOf(oldSize, newSize, 512 * g.perCluster)
      ensures branch == Grow <==> OldCount(oldSize, 512 * g.perCluster) < NewCount(newSize, 512 * g.perCluster)
      ensures branch == Shrink <==> OldCount(oldSize, 512 * g.perCluster) > NewCount(newSize, 512 * g.perCluster)
      ensures branch != Shrink ==> fat[..] == old(fat[..]) && disk[..] == old(disk[..]) && newFirst == first
      ensures branch == Shrink ==>
        (var m, d := Stop(g, old(fat[..]), chain, 0), OldCount(oldSize, 512 * g.perCluster) - NewCount(newSize, 512 * g.perCluster);
         && Final(old(fat[..]), fat[..], chain, m, d)
         && newFirst == (if Kept(m, d) == 0 then 0 else first)
         && Tidied(g, old(disk[..]), disk[..], chain, Kept(m, d), Overhang(newSize, 512 * g.perCluster)))
    {
      var clusterSize := g.perCluster * 512;
      CountsComputed(oldSize, newSize, clusterSize);
      var oldCount := Unsigned32(oldSize + clusterSize - 1) / clusterSize;
      var newCount := Unsigned(newSize + clusterSize - 1) / clusterSize;
      fileSize := Unsigned32(newSize);
      newFirst := first;
      if oldCount < newCount {
        branch := Grow;
      } else if oldCount > newCount {
        branch := Shrink;
        newFirst := Cut(first, oldCount - newCount, newSize % clusterSize, chain, Stop(g, fat[..], chain, 0));
      } else {
        branch := Keep;
      }
    }

    /** Its walk, end mark and frees. */
    method Cut(first: nat, difference: nat, r: nat, ghost chain: seq<nat>, ghost m: nat) returns (newFirst: nat)
      requires Valid() && Chain(g, fat[..], chain) && chain[0] == first && r < 512 * g.perCluster
      requires m == Stop(g, fat[..], chain, 0) && difference > 0
      modifies disk, fat
      ensures Valid() && newFirst == if Kept(m, difference) == 0 then 0 else first
      ensures Final(old(fat[..]), fat[..], chain, m, difference)
      ensures Tidied(g, old(disk[..]), disk[..], chain, Kept(m, difference), r)
    {
      ghost var fat0, disk0, n := fat[..], disk[..], Kept(m, difference);
      var slots, head := FindTail(first, difference, chain);
      TailRing.Oldest(slots[..], head, chain, m, 0);
      var end := TailRing.StepOn(head, difference);
      var newEnd := slots[end];
      newFirst := Terminate(first, newEnd, r, chain, n);
      ghost var fat1, disk1 := fat[..], disk[..];
      FreeTail(slots, head, difference, chain, m);
      FinalBy(g, fat0, fat1, fat[..], chain, m, difference);
      TidyKept(g, disk0, disk1, disk[..], chain, n, r);
    }

    /** The part of it that ends the chain: `newEnd` is 0 when no cluster is kept. */
    method Terminate(first: nat, newEnd: nat, r: nat, ghost chain: seq<nat>, ghost n: nat) returns (newFirst: nat)
      requires Valid() && Chain(g, fat[..], chain) && n <= |chain| && r < 512 * g.perCluster
      requires newEnd == if n == 0 then 0 else chain[n - 1]
      modifies disk, fat
      ensures Valid() && newFirst == if n == 0 then 0 else first
      ensures fat[..] == if n == 0 then old(fat[..]) else old(fat[..])[chain[n - 1] := END]
      ensures Tidied(g, old(disk[..]), disk[..], chain, n, r)
    {
      ghost var disk0 := disk[..];
      if newEnd != 0 {
        WriteFat(newEnd, END);
        ghost var disk1 := disk[..];
        if r != 0 {
          ClearTail(newEnd, r);
        }
        TidyUp(g, disk0, disk1, disk[..], chain, n, r);
        newFirst := first;
      } else {
        newFirst := 0;
        TidySelf(g, disk0, chain, r);
      }
    }
  }

  /** How many clusters are left when the walk ends at place m. */
  function Kept(m: nat, difference: nat): (n: nat)
    ensures n <= m + 1 && (difference > 0 ==> n <= m)
  {
    if difference <= m + 1 then m + 1 - difference else 0
  }

  /**
   The table that shortening leaves when the walk ends at place m of the chain: the last clusters walked
   are free, the one before them ends the chain, and entry 0 is free if slots were left over.
   */
  ghost predicate Final(before: seq<word>, after: seq<word>, chain: seq<nat>, m: nat, difference: nat)
    requires m < |chain|
  {
    var n := Kept(m, difference);
    && |after| == |before|
    && forall c :: 0 <= c < |before| ==>
      after[c] == if c in chain[n..m + 1] || (c == 0 && difference > m + 1) then FREE
                  else if n > 0 && c == chain[n - 1] then END
                  else before[c]
  }

  lemma FinalBy(g: Layout, fat0: seq<word>, fat1: seq<word>, fat2: seq<word>, chain: seq<nat>, m: nat, difference: nat)
    requires Chain(g, fat0, chain) && m < |chain| && difference > 0 && |fat1| == |fat0|
    requires fat1 == if Kept(m, difference) > 0 then fat0[chain[Kept(m, difference) - 1] := END] else fat0
    requires Freed(fat1, fat2, chain, m, difference)
    ensures Final(fat0, fat2, chain, m, difference)
  {
  }

  /** The first n clusters of the chain are a chain, the others are free, all other entries are as they were. */
  ghost predicate Shortened(g: Layout, before: seq<word>, after: seq<word>, chain: seq<nat>, n: nat)
    requires n <= |chain| && InTable(chain, |before|)
  {
    && |after| == |before|
    && (n > 0 ==> Chain(g, after, chain[..n]))
    && (forall k :: n <= k < |chain| ==> after[chain[k]] == FREE)
    && forall c :: 0 <= c < |before| && c !in chain[n..] && (n > 0 ==> c != chain[n - 1]) ==> after[c] == before[c]
  }

  /** Table copies aside, at most the last cluster kept has changed: it is cleared from `from` on. */
  ghost predicate Tidied(g: Layout, before: Disk, after: Disk, chain: seq<nat>, n: nat, from: nat)
    requires Formatted(g, before) && Formatted(g, after) && OnDisk(g, chain) && n <= |chain|
  {
    forall z {:trigger Checked(z)} :: Checked(z) ==>
      && (forall d :: 2 <= d < g.limit && (n > 0 ==> d != chain[n - 1]) ==> Cluster(g, after, d) == Cluster(g, before, d))
      && (n > 0 && from <= 512 * g.perCluster ==>
          Cluster(g, after, chain[n - 1]) == if from == 0 then Cluster(g, before, chain[n - 1]) else Cleared(Cluster(g, before, chain[n - 1]), from))
      && forall i, d :: 0 <= i < g.numFats && 0 <= d < 128 * g.fatSize ==> HighAt(g, after, i, d) == HighAt(g, before, i, d)
  }

  lemma ClustersBeside(g: Layout, before: Disk, after: Disk)
    requires Formatted(g, before) && Formatted(g, after) && Beside(g, before, after)
    ensures forall d :: 2 <= d < g.limit ==> Cluster(g, after, d) == Cluster(g, before, d)
    ensures forall i, d :: 0 <= i < g.numFats && 0 <= d < 128 * g.fatSize ==> HighAt(g, after, i, d) == HighAt(g, before, i, d)
  {
    assert Checked(0);
    forall d | 2 <= d < g.limit ensures Cluster(g, after, d) == Cluster(g, before, d) {
      ClusterOnDisk(g, before, d);
      SectorsSame(before, after, FirstSector(g, d), g.perCluster);
    }
  }

  lemma HighsSame(g: Layout, before: Disk, after: Disk, c: nat)
    requires Formatted(g, before) && Formatted(g, after) && OnlyCluster(g, before, after, c)
    ensures forall i, d :: 0 <= i < g.numFats && 0 <= d < 128 * g.fatSize ==> HighAt(g, after, i, d) == HighAt(g, before, i, d)
  {
    forall i, d | 0 <= i < g.numFats && 0 <= d < 128 * g.fatSize ensures HighAt(g, after, i, d) == HighAt(g, before, i, d) {
      FatSectorFacts(g, before, i, d);
      assert after[FatSector(g, i, d)] == before[FatSector(g, i, d)];
    }
  }

  lemma TidyUp(g: Layout, disk0: Disk, disk1: Disk, disk2: Disk, chain: seq<nat>, n: nat, from: nat)
    requires Formatted(g, disk0) && Formatted(g, disk1) && Formatted(g, disk2) && OnDisk(g, chain)
    requires 0 < n <= |chain| && from <= 512 * g.perCluster && Beside(g, disk0, disk1)
    requires from == 0 ==> disk2 == disk1
    requires from != 0 ==> OnlyCluster(g, disk1, disk2, chain[n - 1]) && Cluster(g, disk2, chain[n - 1]) == Cleared(Cluster(g, disk1, chain[n - 1]), from)
    ensures Tidied(g, disk0, disk2, chain, n, from)
  {
    ClustersBeside(g, disk0, disk1);
    if from != 0 { HighsSame(g, disk1, disk2, chain[n - 1]); }
    assert Checked(0);
  }

  lemma TidySelf(g: Layout, disk: Disk, chain: seq<nat>, from: nat)
    requires Formatted(g, disk) && OnDisk(g, chain)
    ensures Tidied(g, disk, disk, chain, 0, from)
  {
  }

  lemma TidyKept(g: Layout, disk0: Disk, disk1: Disk, disk2: Disk, chain: seq<nat>, n: nat, from: nat)
    requires Formatted(g, disk0) && Formatted(g, disk1) && Formatted(g, disk2) && OnDisk(g, chain) && n <= |chain|
    requires Tidied(g, disk0, disk1, chain, n, from) && Beside(g, disk1, disk2)
    ensures Tidied(g, disk0, disk2, chain, n, from)
  {
    ClustersBeside(g, disk1, disk2);
    assert Checked(0);
  }

  /** The first bytes of a cluster, then zeros. */
  function Cleared(cluster: seq<byte>, from: nat): (r: seq<byte>)
    requires from <= |cluster|
    ensures |r| == |cluster|
  {
    cluster[..from] + Fill(|cluster| - from, 0)
  }

  /** Only one cluster of the disk differs, if any. */
  ghost predicate OnlyCluster(g: Layout, before: Disk, after: Disk, c: nat)
    requires Formatted(g, before) && Formatted(g, after)
  {
    && |after| == |before|
    && (forall s :: 0 <= s < DataStart(g) ==> after[s] == before[s])
    && forall d :: 2 <= d < g.limit && d != c ==> Cluster(g, after, d) == Cluster(g, before, d)
  }

  lemma OnlyClusterIf(g: Layout, before: Disk, after: Disk, c: nat)
    requires Formatted(g, before) && Formatted(g, after) && |before| == |after| && 2 <= c < g.limit
    requires forall s :: 0 <= s < |before| && !(FirstSector(g, c) <= s < FirstSector(g, c) + g.perCluster) ==> after[s] == before[s]
    ensures OnlyCluster(g, before, after, c)
  {
    ClusterOnDisk(g, before, c);
    forall d | 2 <= d < g.limit && d != c ensures Cluster(g, after, d) == Cluster(g, before, d) {
      ClustersApart(g, c, d);
      ClusterOnDisk(g, before, d);
      SectorsSame(before, after, FirstSector(g, d), g.perCluster);
    }
  }

  lemma StillMirrored(g: Layout, before: Disk, after: Disk, fat: seq<word>)
    requires Formatted(g, before) && Formatted(g, after) && |before| == |after|
    requires Mirrored(g, before, fat) && forall s :: 0 <= s < DataStart(g) ==> after[s] == before[s]
    ensures Mirrored(g, after, fat)
  {
    forall i, c | 0 <= i < g.numFats && 0 <= c < |fat|
      ensures FatSector(g, i, c) < |after| && Low(Entry(g, after, i, c)) == Low(fat[c])
    {
      FatSectorFacts(g, before, i, c);
      FatSectorFacts(g, after, i, c);
      assert after[FatSector(g, i, c)] == before[FatSector(g, i, c)];
      assert Low(Entry(g, before, i, c)) == Low(fat[c]);
    }
  }


  ghost predicate InTable(chain: seq<nat>, n: nat) {
    forall k :: 0 <= k < |chain| ==> chain[k] < n
  }

  /** i rounds backwards from place m have freed so many clusters, and entry 0 when there were no more. */
  ghost predicate Freed(before: seq<word>, after: seq<word>, chain: seq<nat>, m: nat, i: nat)
    requires m < |chain|
  {
    && |after| == |before|
    && forall c :: 0 <= c < |before| ==>
      after[c] == if c in chain[Kept(m, i)..m + 1] || (c == 0 && i > m + 1) then FREE else before[c]
  }

  lemma FreedStep(fat0: seq<word>, fat1: seq<word>, fat2: seq<word>, chain: seq<nat>, m: nat, i: nat)
    requires m < |chain| && InTable(chain, |fat0|) && |fat0| > 0
    requires Freed(fat0, fat1, chain, m, i) && fat2 == fat1[(if i <= m then chain[m - i] else 0) := FREE]
    ensures Freed(fat0, fat2, chain, m, i + 1)
  {
    if i <= m {
      assert chain[m - i..m + 1] == [chain[m - i]] + chain[m - i + 1..m + 1];
    }
  }

  lemma LowIsAll(w: word)
    requires w < END
    ensures Low(w) == w
  {
  }

  /** What is still to be read at place `rest` of cluster k. */
  ghost function Rest(g: Layout, disk: Disk, chain: seq<nat>, k: nat, rest: nat): (r: seq<byte>)
    requires Formatted(g, disk)
  {
    if k <= |chain| && OnDisk(g, chain[k..]) && rest <= |Content(g, disk, chain[k..])| then Content(g, disk, chain[k..])[rest..] else []
  }

  lemma Moved(tail: seq<byte>, buffer: seq<byte>, piece: seq<byte>, before: seq<byte>, after: seq<byte>)
    requires tail == buffer + before && before == piece + after
    ensures tail == (buffer + piece) + after
  {
  }

  ghost function First(s: seq<byte>, n: nat): seq<byte> {
    s[..Min(n, |s|)]
  }

  /** What `fat_read` gives. */
  ghost function ReadAs(all: seq<byte>, fileSize: nat, offset: nat, size: nat): ReadResult {
    if offset >= fileSize then Bytes([])
    else if offset >= |all| then EndOfChain
    else Bytes(First(all[offset..], if Unsigned(offset + size) > fileSize then fileSize - offset else size))
  }

  lemma ReadRight(all: seq<byte>, fileSize: nat, offset: nat, size: nat)
    requires |all| < TOP && offset < fileSize < TOP && size < TOP
    ensures ReadAs(all, fileSize, offset, size) == ReadSpec(all, fileSize, offset, size) <==> offset + size < TOP || |all| <= fileSize
  {
    if offset >= |all| {
      assert ReadAs(all, fileSize, offset, size) == ReadSpec(all, fileSize, offset, size);
    } else {
      var tail := all[offset..];
      var right, n := Min(size, fileSize - offset), if Unsigned(offset + size) > fileSize then fileSize - offset else size;
      assert ReadAs(all, fileSize, offset, size) == Bytes(First(tail, n)) && ReadSpec(all, fileSize, offset, size) == Bytes(First(tail, right));
      if offset + size >= TOP {
        WrappedFirst(tail, size, fileSize - offset);
        assert Unsigned(offset + size) == offset + size - TOP && n == size && right == fileSize - offset;
      } else {
        assert n == right;
      }
    }
  }

  lemma WrappedFirst(tail: seq<byte>, n: nat, right: nat)
    requires n >= |tail|
    ensures First(tail, n) == First(tail, right) <==> |tail| <= right
  {
    assert |First(tail, n)| == |tail| && |First(tail, right)| == Min(right, |tail|);
    if |tail| <= right { assert First(tail, n) == tail && First(tail, right) == tail; }
  }

  lemma {:induction false} Crowded(s: seq<nat>, n: nat)
    requires Distinct(s) && forall i :: 0 <= i < |s| ==> s[i] < n
    ensures |s| <= n
    decreases n
  {
    if s != [] {
      assert s[0] < n;
      if i :| 0 <= i < |s| && s[i] == n - 1 {
        var rest := s[..i] + s[i + 1..];
        assert forall k :: 0 <= k < |rest| ==> rest[k] == if k < i then s[k] else s[k + 1];
        Crowded(rest, n - 1);
      } else {
        Crowded(s, n - 1);
      }
    }
  }

  lemma Products(a: nat, b: nat, c: nat, d: nat)
    requires a <= c && b <= d
    ensures a * b <= c * d
  {
    calc <= {
      a * b;
      { AtMost(a, c, b); }
      c * b;
      { AtMost(b, d, c); }
      c * d;
    }
  }

  lemma AtMost(a: nat, b: nat, n: nat)
    requires a <= b
    ensures a * n <= b * n && n * a <= n * b
  {
  }

  /** A chain has fewer bytes than 2^64. */
  lemma ChainBound(g: Layout, disk: Disk, fat: seq<word>, chain: seq<nat>)
    requires Formatted(g, disk) && Chain(g, fat, chain)
    ensures |Content(g, disk, chain)| < TOP
  {
    ContentSize(g, disk, chain);
    Crowded(chain, g.limit);
    TimesIsProduct(|chain|, 512 * g.perCluster);
    Products(|chain|, 512 * g.perCluster, 0x1000_0000, 0x2_0000);
  }

  ghost function ReadSpec(all: seq<byte>, fileSize: nat, offset: nat, size: nat): ReadResult {
    if offset >= fileSize then Bytes([])
    else if offset >= |all| then EndOfChain
    else Bytes(First(all[offset..], Min(size, fileSize - offset)))
  }

  /** A link is either the next cluster of the chain or, at its last cluster only, an end mark. */
  lemma LinkAt(g: Layout, fat: seq<word>, chain: seq<nat>, k: nat)
    requires Chain(g, fat, chain) && g.limit < END && k < |chain|
    ensures Low(fat[chain[k]]) < END <==> k + 1 < |chain|
    ensures k + 1 < |chain| ==> Low(fat[chain[k]]) == chain[k + 1]
  {
    if k + 1 < |chain| { assert chain[k + 1] < g.limit; }
  }

  /** The bytes from cluster k on. */
  lemma ContentDrop(g: Layout, disk: Disk, chain: seq<nat>, k: nat)
    requires Formatted(g, disk) && OnDisk(g, chain) && k <= |chain|
    ensures OnDisk(g, chain[k..]) && Times(k, 512 * g.perCluster) <= |Content(g, disk, chain)|
    ensures Content(g, disk, chain)[Times(k, 512 * g.perCluster)..] == Content(g, disk, chain[k..])
  {
    assert chain == chain[..k] + chain[k..];
    ContentJoins(g, disk, chain[..k], chain[k..]);
    ContentSize(g, disk, chain[..k]);
  }

  lemma Found(g: Layout, disk: Disk, chain: seq<nat>, k: nat, rest: nat, offset: nat)
    requires Formatted(g, disk) && OnDisk(g, chain) && k < |chain| && rest < 512 * g.perCluster
    requires offset == Times(k, 512 * g.perCluster) + rest
    ensures offset < |Content(g, disk, chain)| && Content(g, disk, chain)[offset..] == Rest(g, disk, chain, k, rest)
  {
    ContentDrop(g, disk, chain, k);
  }

  /** Bytes taken out of cluster k, and what is left after them. */
  lemma PieceOf(g: Layout, disk: Disk, chain: seq<nat>, k: nat, from: nat, n: nat)
    requires Formatted(g, disk) && OnDisk(g, chain) && k < |chain| && from + n <= 512 * g.perCluster
    ensures Rest(g, disk, chain, k, from) == Cluster(g, disk, chain[k])[from..from + n] + Rest(g, disk, chain, k, from + n)
    ensures Rest(g, disk, chain, k, 512 * g.perCluster) == Rest(g, disk, chain, k + 1, 0)
    ensures k + 1 == |chain| ==> Rest(g, disk, chain, k + 1, 0) == []
  {
    assert chain[k..][1..] == chain[k + 1..];
  }

  // ---------------------------------------------------------------- what shortening means

  /**
   Giving up `difference` clusters leaves exactly the clusters before them, for every chain that has so
   many, if and only if no link of it has a reserved bit set.
   */
  lemma ShortensExactly(g: Layout, fat: seq<word>, fat': seq<word>, chain: seq<nat>, difference: nat)
    requires Chain(g, fat, chain) && g.limit < END && 0 < difference <= |chain|
    requires Final(fat, fat', chain, Stop(g, fat, chain, 0), difference)
    ensures Shortened(g, fat, fat', chain, |chain| - difference) <==> Plain(fat, chain)
  {
    StopsAtEnd(g, fat, chain, 0);
    var m := Stop(g, fat, chain, 0);
    if m == |chain| - 1 {
      WalkedAll(g, fat, fat', chain, difference);
    } else {
      StoppedEarly(g, fat, fat', chain, m, difference);
    }
  }

  /**
   A file with as many clusters as its size takes is truncated to fewer of them, exactly those before,
   if and only if the count of its old size does not wrap and no link has a reserved bit set.
   */
  lemma TruncatesExactly(g: Layout, fat: seq<word>, fat': seq<word>, chain: seq<nat>, oldSize: nat, newSize: nat)
    requires Chain(g, fat, chain) && g.limit < END && 0 < 512 * g.perCluster < TOP32 && oldSize < TOP32
    requires |chain| == Clusters(oldSize, 512 * g.perCluster) && Clusters(newSize, 512 * g.perCluster) < |chain|
    requires BranchOf(oldSize, newSize, 512 * g.perCluster) == Shrink ==>
      Final(fat, fat', chain, Stop(g, fat, chain, 0), OldCount(oldSize, 512 * g.perCluster) - NewCount(newSize, 512 * g.perCluster))
    ensures BranchOf(oldSize, newSize, 512 * g.perCluster) == Shrink && Shortened(g, fat, fat', chain, Clusters(newSize, 512 * g.perCluster))
       <==> !OldWraps(oldSize, 512 * g.perCluster) && Plain(fat, chain)
  {
    var clusterSize := 512 * g.perCluster;
    FewerFit(oldSize, newSize, clusterSize);
    if !OldWraps(oldSize, clusterSize) {
      ShortensExactly(g, fat, fat', chain, |chain| - Clusters(newSize, clusterSize));
    }
  }

  lemma FewerFit(oldSize: nat, newSize: nat, clusterSize: nat)
    requires 0 < clusterSize < TOP32 && oldSize < TOP32 && Clusters(newSize, clusterSize) < Clusters(oldSize, clusterSize)
    ensures newSize < oldSize && !NewWraps(newSize, clusterSize)
  {
    ClustersFacts(oldSize, clusterSize);
    ClustersFacts(newSize, clusterSize);
    var a, b := Clusters(newSize, clusterSize), Clusters(oldSize, clusterSize) - 1;
    if a < b { RowsApart(a, b, clusterSize); }
  }

  lemma WalkedAll(g: Layout, fat: seq<word>, fat': seq<word>, chain: seq<nat>, difference: nat)
    requires Chain(g, fat, chain) && 0 < difference <= |chain| && Final(fat, fat', chain, |chain| - 1, difference)
    ensures Shortened(g, fat, fat', chain, |chain| - difference)
  {
    var n := |chain| - difference;
    assert chain[n..|chain|] == chain[n..];
    forall k | n <= k < |chain| ensures fat'[chain[k]] == FREE {
      assert chain[n..][k - n] == chain[k];
    }
    if n > 0 {
      forall k | 0 <= k < n ensures chain[k] !in chain[n..] && fat'[chain[k]] == if k == n - 1 then END else fat[chain[k]] {}
      var kept := chain[..n];
      assert Chain(g, fat', kept) by {
        assert forall k :: 0 <= k < n ==> kept[k] == chain[k];
      }
    }
  }

  /** The clusters behind the place where the walk stopped are neither kept nor freed. */
  lemma StoppedEarly(g: Layout, fat: seq<word>, fat': seq<word>, chain: seq<nat>, m: nat, difference: nat)
    requires Chain(g, fat, chain) && m < |chain| - 1 && 0 < difference <= |chain| && Final(fat, fat', chain, m, difference)
    ensures forall k :: m < k < |chain| ==> fat'[chain[k]] == fat[chain[k]]
    ensures fat'[chain[|chain| - 1]] != FREE && !Shortened(g, fat, fat', chain, |chain| - difference)
  {
    var n := Kept(m, difference);
    forall k | m < k < |chain| ensures fat'[chain[k]] == fat[chain[k]] {
      assert chain[k] !in chain[n..m + 1];
    }
  }

  /** A table of one sector with one file, in clusters 2 and 3, and a reserved bit in its link. */
  function ReservedBitTable(): (fat: seq<word>)
    ensures |fat| == 128 && fat[0] == 0x0FFF_FFF8 && fat[2] == 0x1000_0003 && fat[3] == 0x0FFF_FFF8
  {
    [0x0FFF_FFF8, 0x0FFF_FFFF, 0x1000_0003, 0x0FFF_FFF8] + Fill(124, FREE)
  }

  /**
   The failing case, the file of this table truncated to nothing: the second cluster stays allocated, and
   entry 0 of the table is overwritten.
   */
  lemma ReservedBitLoses(fat': seq<word>)
    requires Final(ReservedBitTable(), fat', [2, 3], 0, 2)
    ensures var g, fat, chain: seq<nat> := Layout(1, 1, 1, 1, 4), ReservedBitTable(), [2, 3];
            && Chain(g, fat, chain) && Stop(g, fat, chain, 0) == 0 && !Plain(fat, chain)
            && fat'[0] == FREE && fat'[3] == END && !Shortened(g, fat, fat', chain, 0)
  {
    var g, fat, chain: seq<nat> := Layout(1, 1, 1, 1, 4), ReservedBitTable(), [2, 3];
    assert High(fat[chain[0]]) == 0x1000_0000;
    assert fat'[0] == FREE;
    StoppedEarly(g, fat, fat', chain, 0, 2);
  }

  /** No other file is touched, wherever the walk stopped. */
  lemma OthersUntouched(g: Layout, fat: seq<word>, fat': seq<word>, disk: Disk, disk': Disk, chain: seq<nat>, m: nat, difference: nat, from: nat, other: seq<nat>)
    requires Chain(g, fat, chain) && m < |chain| && Final(fat, fat', chain, m, difference)
    requires Formatted(g, disk) && Formatted(g, disk') && Tidied(g, disk, disk', chain, Kept(m, difference), from)
    requires Chain(g, fat, other) && forall k :: 0 <= k < |other| ==> other[k] !in chain
    ensures Chain(g, fat', other) && Content(g, disk', other) == Content(g, disk, other)
  {
    forall k | 0 <= k < |other| ensures fat'[other[k]] == fat[other[k]] {
      assert other[k] !in chain[Kept(m, difference)..m + 1];
    }
    assert Checked(0);
    ContentSame(g, disk, disk', other);
  }

  /** The bytes up to the new size are the old ones, and the rest of the last cluster is zero. */
  lemma PrefixKept(g: Layout, disk: Disk, disk': Disk, chain: seq<nat>, n: nat, newSize: nat)
    requires Formatted(g, disk) && Formatted(g, disk') && OnDisk(g, chain) && Distinct(chain)
    requires n == Clusters(newSize, 512 * g.perCluster) <= |chain| && Tidied(g, disk, disk', chain, n, Overhang(newSize, 512 * g.perCluster))
    ensures OnDisk(g, chain[..n]) && newSize <= |Content(g, disk', chain[..n])| && newSize <= |Content(g, disk, chain)|
    ensures Content(g, disk', chain[..n])[..newSize] == Content(g, disk, chain)[..newSize]
    ensures forall k :: newSize <= k < |Content(g, disk', chain[..n])| && Overhang(newSize, 512 * g.perCluster) != 0 ==> Content(g, disk', chain[..n])[k] == 0
  {
    ClustersFacts(newSize, 512 * g.perCluster);
    Behind(g, disk, chain, n);
    if n > 0 {
      SomeKept(g, disk, disk', chain, n, newSize);
    }
  }

  lemma SomeKept(g: Layout, disk: Disk, disk': Disk, chain: seq<nat>, n: nat, newSize: nat)
    requires Formatted(g, disk) && Formatted(g, disk') && OnDisk(g, chain) && Distinct(chain)
    requires 0 < n == Clusters(newSize, 512 * g.perCluster) <= |chain| && Tidied(g, disk, disk', chain, n, Overhang(newSize, 512 * g.perCluster))
    ensures OnDisk(g, chain[..n]) && OnDisk(g, chain[n..]) && newSize <= |Content(g, disk', chain[..n])|
    ensures newSize <= |Content(g, disk, chain[..n]) + Content(g, disk, chain[n..])|
    ensures Content(g, disk', chain[..n])[..newSize] == (Content(g, disk, chain[..n]) + Content(g, disk, chain[n..]))[..newSize]
    ensures forall k :: newSize <= k < |Content(g, disk', chain[..n])| ==> Content(g, disk', chain[..n])[k] == 0
  {
    ClustersFacts(newSize, 512 * g.perCluster);
    LastCluster(g, disk, chain, n);
    LastCluster(g, disk', chain, n);
    TidiedFront(g, disk, disk', chain, n, Overhang(newSize, 512 * g.perCluster));
    var front, last, last' := Content(g, disk, chain[..n - 1]), Cluster(g, disk, chain[n - 1]), Cluster(g, disk', chain[n - 1]);
    Prefixes(front, last, last', Content(g, disk, chain[n..]), newSize);
  }

  lemma TidiedFront(g: Layout, disk: Disk, disk': Disk, chain: seq<nat>, n: nat, from: nat)
    requires Formatted(g, disk) && Formatted(g, disk') && OnDisk(g, chain) && Distinct(chain) && 0 < n <= |chain| && from < 512 * g.perCluster
    requires Tidied(g, disk, disk', chain, n, from)
    ensures OnDisk(g, chain[..n - 1]) && Content(g, disk', chain[..n - 1]) == Content(g, disk, chain[..n - 1])
    ensures Cluster(g, disk', chain[n - 1]) == if from == 0 then Cluster(g, disk, chain[n - 1]) else Cleared(Cluster(g, disk, chain[n - 1]), from)
  {
    assert Checked(0);
    FrontSame(g, disk, disk', chain, n);
  }

  lemma Behind(g: Layout, disk: Disk, chain: seq<nat>, n: nat)
    requires Formatted(g, disk) && OnDisk(g, chain) && n <= |chain|
    ensures OnDisk(g, chain[..n]) && OnDisk(g, chain[n..])
    ensures Content(g, disk, chain) == Content(g, disk, chain[..n]) + Content(g, disk, chain[n..])
  {
    assert chain == chain[..n] + chain[n..];
    ContentJoins(g, disk, chain[..n], chain[n..]);
  }

  lemma FrontSame(g: Layout, disk: Disk, disk': Disk, chain: seq<nat>, n: nat)
    requires Formatted(g, disk) && Formatted(g, disk') && OnDisk(g, chain) && Distinct(chain) && 0 < n <= |chain|
    requires forall d :: 2 <= d < g.limit && d != chain[n - 1] ==> Cluster(g, disk', d) == Cluster(g, disk, d)
    ensures OnDisk(g, chain[..n - 1]) && Content(g, disk', chain[..n - 1]) == Content(g, disk, chain[..n - 1])
  {
    ContentSame(g, disk, disk', chain[..n - 1]);
  }

  lemma LastCluster(g: Layout, disk: Disk, chain: seq<nat>, n: nat)
    requires Formatted(g, disk) && OnDisk(g, chain) && 0 < n <= |chain|
    ensures OnDisk(g, chain[..n - 1]) && OnDisk(g, chain[..n])
    ensures Content(g, disk, chain[..n]) == Content(g, disk, chain[..n - 1]) + Cluster(g, disk, chain[n - 1])
    ensures |Content(g, disk, chain[..n - 1])| == Times(n - 1, 512 * g.perCluster)
  {
    assert chain[..n] == chain[..n - 1] + [chain[n - 1]];
    ContentJoins(g, disk, chain[..n - 1], [chain[n - 1]]);
    ContentSize(g, disk, chain[..n - 1]);
    OneCluster(g, disk, chain[n - 1]);
  }

  lemma Prefixes(front: seq<byte>, last: seq<byte>, last': seq<byte>, behind: seq<byte>, size: nat)
    requires |front| < size <= |front| + |last| && |last'| == |last|
    requires last' == if size == |front| + |last| then last else Cleared(last, size - |front|)
    ensures (front + last')[..size] == ((front + last) + behind)[..size]
    ensures forall k :: size <= k < |front + last'| ==> (front + last')[k] == 0
  {
    assert last'[..size - |front|] == last[..size - |front|];
    assert (front + last')[..size] == front + last'[..size - |front|];
    assert ((front + last) + behind)[..size] == front + last[..size - |front|];
  }

  lemma OneCluster(g: Layout, disk: Disk, c: nat)
    requires Formatted(g, disk) && 2 <= c < g.limit
    ensures OnDisk(g, [c]) && Content(g, disk, [c]) == Cluster(g, disk, c)
  {
    assert [c][1..] == [];
  }

  /** Reading the shortened file gives what reading the old one up to the new size gave. */
  lemma ReadsAsBefore(g: Layout, disk: Disk, disk': Disk, chain: seq<nat>, n: nat, newSize: nat, offset: nat, size: nat)
    requires Formatted(g, disk) && Formatted(g, disk') && OnDisk(g, chain) && Distinct(chain)
    requires n == Clusters(newSize, 512 * g.perCluster) <= |chain| && Tidied(g, disk, disk', chain, n, Overhang(newSize, 512 * g.perCluster))
    ensures OnDisk(g, chain[..n])
    ensures ReadSpec(Content(g, disk', chain[..n]), newSize, offset, size) == ReadSpec(Content(g, disk, chain), newSize, offset, size)
  {
    PrefixKept(g, disk, disk', chain, n, newSize);
    SamePrefix(Content(g, disk', chain[..n]), Content(g, disk, chain), newSize, offset, size);
  }

  lemma SamePrefix(a: seq<byte>, b: seq<byte>, fileSize: nat, offset: nat, size: nat)
    requires fileSize <= |a| && fileSize <= |b| && a[..fileSize] == b[..fileSize]
    ensures ReadSpec(a, fileSize, offset, size) == ReadSpec(b, fileSize, offset, size)
  {
    if offset < fileSize {
      var n := Min(size, fileSize - offset);
      assert First(a[offset..], n) == a[..fileSize][offset..offset + n];
      assert First(b[offset..], n) == b[..fileSize][offset..offset + n];
    }
  }
}
