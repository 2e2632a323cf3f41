/**
 The allocation table of a FAT volume (kernel/fs/fat.c): where its entries lie on the disk, the copies
 that `write_fat` keeps in step with the cached table, and the chains the table describes.
 */
module FatTables {

  import opened Common
  import opened Rows

  type byte = x: int | 0 <= x < 256

  type word = x: int | 0 <= x < 0x1_0000_0000

  type Disk = seq<seq<byte>>

  /** CLUSTER_CHAIN_END */
  const END: int := 0x0FFF_FFF8

  /** CLUSTER_FREE */
  const FREE: word := 0

  // ---------------------------------------------------------------- words in sectors

  function Word(s: seq<byte>, o: nat): word
    requires o + 4 <= |s|
  {
    s[o] as int + 0x100 * s[o + 1] as int + 0x1_0000 * s[o + 2] as int + 0x100_0000 * s[o + 3] as int
  }

  /** The bytes of a word, least significant first. */
  function Bytes(w: word): (r: (byte, byte, byte, byte))
    ensures r.0 + 0x100 * r.1 + 0x1_0000 * r.2 + 0x100_0000 * r.3 == w
  {
    var q := w / 0x100;
    var p := q / 0x100;
    (w % 0x100, q % 0x100, p % 0x100, p / 0x100)
  }

  function PutWord(s: seq<byte>, o: nat, w: word): (r: seq<byte>)
    requires o + 4 <= |s|
    ensures |r| == |s|
  {
    var b := Bytes(w);
    s[o := b.0][o + 1 := b.1][o + 2 := b.2][o + 3 := b.3]
  }

  lemma WordAt(s: seq<byte>, o: nat, w: word, p: nat)
    requires o + 4 <= |s| && p + 4 <= |s| && (p == o || p + 4 <= o || o + 4 <= p)
    ensures Word(PutWord(s, o, w), p) == if p == o then w else Word(s, p)
  {
    var b := Bytes(w);
    var r := PutWord(s, o, w);
    assert r[o] == b.0 && r[o + 1] == b.1 && r[o + 2] == b.2 && r[o + 3] == b.3;
  }

  /** The least significant byte comes first. */
  lemma LittleEndian(s: seq<byte>, o: nat)
    requires o + 4 <= |s|
    ensures Word(s, o) == ((s[o + 3] as int * 256 + s[o + 2] as int) * 256 + s[o + 1] as int) * 256 + s[o] as int
  {
  }

  /** The bits that belong to FAT32 ... */
  function Low(w: word): (r: word) { w % 0x1000_0000 }

  /** ... and the reserved ones. */
  function High(w: word): (r: word) { w - Low(w) }

  /** `(old & 0xF0000000) | (content & 0x0FFFFFFF)` */
  function Merge(old': word, content: word): (r: word)
    ensures Low(r) == Low(content) && High(r) == High(old')
  {
    old' / 0x1000_0000 * 0x1000_0000 + Low(content)
  }

  // ---------------------------------------------------------------- the layout

  /** The number of clusters that `size` bytes take ... */
  function Clusters(size: nat, clusterSize: nat): nat
    requires clusterSize > 0
  {
    if size == 0 then 0 else if size <= clusterSize then 1 else Clusters(size - clusterSize, clusterSize) + 1
  }

  /** ... and how many of them lie behind the last full one. */
  function Overhang(size: nat, clusterSize: nat): (r: nat)
    requires clusterSize > 0
    ensures r < clusterSize
  {
    if size < clusterSize then size else Overhang(size - clusterSize, clusterSize)
  }

  lemma {:induction false} ClustersFacts(size: nat, clusterSize: nat)
    requires clusterSize > 0
    ensures var n, r := Clusters(size, clusterSize), Overhang(size, clusterSize);
            && (n == 0 <==> size == 0)
            && size <= Times(n, clusterSize)
            && (n > 0 ==> size == Times(n - 1, clusterSize) + if r == 0 then clusterSize else r)
  {
    if size > clusterSize { ClustersFacts(size - clusterSize, clusterSize); }
  }

  /** As the code computes them. */
  lemma ClustersComputed(size: nat, clusterSize: nat)
    requires clusterSize > 0
    ensures (size + clusterSize - 1) / clusterSize == Clusters(size, clusterSize)
    ensures size % clusterSize == Overhang(size, clusterSize)
  {
    ClustersFacts(size, clusterSize);
    var n, r := Clusters(size, clusterSize), Overhang(size, clusterSize);
    if n == 0 {
      QuotientIs(clusterSize - 1, clusterSize, 0, clusterSize - 1);
      QuotientIs(0, clusterSize, 0, 0);
    } else if r == 0 {
      QuotientIs(size + clusterSize - 1, clusterSize, n, clusterSize - 1);
      QuotientIs(size, clusterSize, n, 0);
    } else {
      QuotientIs(size + clusterSize - 1, clusterSize, n, r - 1);
      QuotientIs(size, clusterSize, n - 1, r);
    }
  }

  // ---------------------------------------------------------------- the two counts of fat_truncate

  /** The count of the old size is taken in 32 bits ... */
  predicate OldWraps(size: nat, clusterSize: nat) {
    size + clusterSize >= TOP32 + 1
  }

  /** ... that of the new one in 64. */
  predicate NewWraps(size: nat, clusterSize: nat) {
    size + clusterSize >= TOP + 1
  }

  function OldCount(size: nat, clusterSize: nat): nat
    requires clusterSize > 0
  {
    if OldWraps(size, clusterSize) then 0 else Clusters(size, clusterSize)
  }

  function NewCount(size: nat, clusterSize: nat): nat
    requires clusterSize > 0
  {
    if NewWraps(size, clusterSize) then 0 else Clusters(size, clusterSize)
  }

  /** Both counts are right exactly if neither sum wraps. */
  lemma CountsRight(oldSize: nat, newSize: nat, clusterSize: nat)
    requires 0 < clusterSize < TOP32 && oldSize < TOP32 && newSize < TOP
    ensures OldCount(oldSize, clusterSize) == Clusters(oldSize, clusterSize) && NewCount(newSize, clusterSize) == Clusters(newSize, clusterSize)
       <==> !OldWraps(oldSize, clusterSize) && !NewWraps(newSize, clusterSize)
  {
    ClustersFacts(oldSize, clusterSize);
    ClustersFacts(newSize, clusterSize);
  }

  lemma CountsComputed(oldSize: nat, newSize: nat, clusterSize: nat)
    requires 0 < clusterSize < TOP32 && oldSize < TOP32 && newSize < TOP
    ensures Unsigned32(oldSize + clusterSize - 1) / clusterSize == OldCount(oldSize, clusterSize)
    ensures Unsigned(newSize + clusterSize - 1) / clusterSize == NewCount(newSize, clusterSize)
    ensures newSize % clusterSize == Overhang(newSize, clusterSize)
  {
    ClustersComputed(oldSize, clusterSize);
    ClustersComputed(newSize, clusterSize);
    if OldWraps(oldSize, clusterSize) {
      QuotientIs(oldSize + clusterSize - 1 - TOP32, clusterSize, 0, oldSize + clusterSize - 1 - TOP32);
    }
    if NewWraps(newSize, clusterSize) {
      QuotientIs(newSize + clusterSize - 1 - TOP, clusterSize, 0, newSize + clusterSize - 1 - TOP);
    }
  }

  datatype Branch = Grow | Keep | Shrink

  /** The branch that `fat_truncate` takes. */
  function BranchOf(oldSize: nat, newSize: nat, clusterSize: nat): Branch
    requires clusterSize > 0
  {
    if OldCount(oldSize, clusterSize) < NewCount(newSize, clusterSize) then Grow
    else if OldCount(oldSize, clusterSize) > NewCount(newSize, clusterSize) then Shrink
    else Keep
  }

  /** A file of the largest size FAT allows, to be cut to 100 bytes: it takes the growing branch. */
  lemma LargestFileGrows()
    ensures Clusters(100, 4096) < Clusters(0xFFFF_FFFF, 4096) && BranchOf(0xFFFF_FFFF, 100, 4096) == Grow
  {
    assert Clusters(0xFFFF_FFFF, 4096) == Clusters(0xFFFF_FFFF - 4096, 4096) + 1;
    ClustersFacts(0xFFFF_FFFF - 4096, 4096);
  }

  /** A file of 100 bytes, to be grown to the largest size there is: its one cluster is freed. */
  lemma LargestSizeShrinks()
    ensures BranchOf(100, TOP - 1, 4096) == Shrink && OldCount(100, 4096) - NewCount(TOP - 1, 4096) == 1
  {
  }

  /** Sector counts from the BPB; `limit` is one more than the largest cluster number of the data area. */
  datatype Layout = Layout(reserved: nat, numFats: nat, fatSize: nat, perCluster: nat, limit: nat)

  function DataStart(g: Layout): nat {
    g.reserved + Times(g.numFats, g.fatSize)
  }

  /** `get_first_cluster_sector` */
  function FirstSector(g: Layout, c: nat): nat
    requires 2 <= c
  {
    Times(c - 2, g.perCluster) + DataStart(g)
  }

  /** Sectors have 512 bytes; the entries of all clusters lie in the table and all clusters on the disk. */
  ghost predicate Formatted(g: Layout, disk: Disk) {
    && 1 <= g.perCluster < 256 && 2 <= g.limit <= 128 * g.fatSize && g.limit < END
    && FirstSector(g, g.limit) <= |disk|
    && forall s :: 0 <= s < |disk| ==> |disk[s]| == 512
  }

  function FatSector(g: Layout, copy: nat, c: nat): nat {
    g.reserved + 4 * c / 512 + Times(copy, g.fatSize)
  }

  lemma FatSectorFacts(g: Layout, disk: Disk, copy: nat, c: nat)
    requires Formatted(g, disk) && copy < g.numFats && c < 128 * g.fatSize
    ensures FatSector(g, copy, c) < DataStart(g) <= |disk|
  {
    RowsApart(copy, g.numFats, g.fatSize);
  }

  /** Where an entry lies in its sector. */
  function Offset(c: nat): (r: nat)
    ensures r + 4 <= 512
  {
    4 * c % 512
  }

  /** Entry c of a copy lies 4 * c bytes behind its beginning, and copies follow each other behind the reserved sectors. */
  lemma EntryAddress(g: Layout, copy: nat, c: nat)
    ensures 512 * FatSector(g, copy, c) + Offset(c) == 512 * (g.reserved + copy * g.fatSize) + 4 * c
  {
    TimesIsProduct(copy, g.fatSize);
  }

  /** Cluster 2 is the first one behind the copies of the table, and each has its sectors behind the one before. */
  lemma ClusterAddress(g: Layout, c: nat)
    requires 2 <= c
    ensures FirstSector(g, c) == g.reserved + g.numFats * g.fatSize + (c - 2) * g.perCluster
  {
    TimesIsProduct(g.numFats, g.fatSize);
    TimesIsProduct(c - 2, g.perCluster);
  }

  /** Entries share a sector only within one copy, and then they do not overlap. */
  lemma EntriesApart(g: Layout, i: nat, c: nat, j: nat, d: nat)
    requires c < 128 * g.fatSize && d < 128 * g.fatSize
    requires FatSector(g, i, c) == FatSector(g, j, d)
    ensures i == j
    ensures c != d ==> Offset(c) != Offset(d)
    ensures c != d ==> Offset(c) + 4 <= Offset(d) || Offset(d) + 4 <= Offset(c)
  {
    if i < j { RowsApart(i, j, g.fatSize); } else if j < i { RowsApart(j, i, g.fatSize); }
    assert 4 * c / 512 == 4 * d / 512;
  }

  function Entry(g: Layout, disk: Disk, copy: nat, c: nat): word
    requires FatSector(g, copy, c) < |disk| && |disk[FatSector(g, copy, c)]| == 512
  {
    Word(disk[FatSector(g, copy, c)], Offset(c))
  }

  /** The cached table agrees with every copy on disk in the low 28 bits. */
  ghost predicate Mirrored(g: Layout, disk: Disk, fat: seq<word>)
    requires Formatted(g, disk)
  {
    && |fat| == 128 * g.fatSize
    && forall i, c :: 0 <= i < g.numFats && 0 <= c < |fat| ==>
      (FatSectorFacts(g, disk, i, c); Low(Entry(g, disk, i, c)) == Low(fat[c]))
  }

  // ---------------------------------------------------------------- write_fat

  /** One round of the loop of `write_fat`. */
  function WriteCopy(g: Layout, disk: Disk, copy: nat, c: nat, content: word): (r: Disk)
    requires Formatted(g, disk) && copy < g.numFats && c < 128 * g.fatSize
    ensures Formatted(g, r) && |r| == |disk|
  {
    FatSectorFacts(g, disk, copy, c);
    var s := FatSector(g, copy, c);
    disk[s := PutWord(disk[s], Offset(c), Merge(Entry(g, disk, copy, c), content))]
  }

  function WriteCopies(g: Layout, disk: Disk, n: nat, c: nat, content: word): (r: Disk)
    requires Formatted(g, disk) && n <= g.numFats && c < 128 * g.fatSize
    ensures Formatted(g, r) && |r| == |disk|
  {
    if n == 0 then disk else WriteCopy(g, WriteCopies(g, disk, n - 1, c, content), n - 1, c, content)
  }

  /** The entry of the copy written takes the new low bits and keeps its high ones; no other entry changes. */
  lemma WriteCopyEntry(g: Layout, disk: Disk, copy: nat, c: nat, content: word, i: nat, d: nat)
    requires Formatted(g, disk) && copy < g.numFats && c < 128 * g.fatSize && i < g.numFats && d < 128 * g.fatSize
    ensures FatSector(g, i, d) < |disk|
    ensures Entry(g, WriteCopy(g, disk, copy, c, content), i, d)
         == if i == copy && d == c then Merge(Entry(g, disk, i, d), content) else Entry(g, disk, i, d)
  {
    FatSectorFacts(g, disk, copy, c);
    FatSectorFacts(g, disk, i, d);
    var s := FatSector(g, copy, c);
    if FatSector(g, i, d) == s {
      EntriesApart(g, i, d, copy, c);
      WordAt(disk[s], Offset(c), Merge(Entry(g, disk, copy, c), content), Offset(d));
    } else {
      assert WriteCopy(g, disk, copy, c, content)[FatSector(g, i, d)] == disk[FatSector(g, i, d)];
    }
  }

  /** After n rounds the first n copies have changed in that one entry. */
  lemma {:induction false} WriteCopiesEntry(g: Layout, disk: Disk, n: nat, c: nat, content: word, i: nat, d: nat)
    requires Formatted(g, disk) && n <= g.numFats && c < 128 * g.fatSize && i < g.numFats && d < 128 * g.fatSize
    ensures FatSector(g, i, d) < |disk|
    ensures Entry(g, WriteCopies(g, disk, n, c, content), i, d)
         == if i < n && d == c then Merge(Entry(g, disk, i, d), content) else Entry(g, disk, i, d)
  {
    FatSectorFacts(g, disk, i, d);
    if n > 0 {
      var mid := WriteCopies(g, disk, n - 1, c, content);
      var after := WriteCopies(g, disk, n, c, content);
      CopiesUnfold(g, disk, n, c, content);
      WriteCopiesEntry(g, disk, n - 1, c, content, i, d);
      WriteCopyEntry(g, mid, n - 1, c, content, i, d);
      OneMoreCopy(Entry(g, disk, i, d), Entry(g, mid, i, d), Entry(g, after, i, d), n, i, d == c, content);
    }
  }

  lemma OneMoreCopy(e0: word, e1: word, e2: word, n: nat, i: nat, same: bool, content: word)
    requires n > 0 && e1 == if i < n - 1 && same then Merge(e0, content) else e0
    requires e2 == if i == n - 1 && same then Merge(e1, content) else e1
    ensures e2 == if i < n && same then Merge(e0, content) else e0
  {
  }

  lemma CopiesUnfold(g: Layout, disk: Disk, n: nat, c: nat, content: word)
    requires Formatted(g, disk) && 0 < n <= g.numFats && c < 128 * g.fatSize
    ensures WriteCopies(g, disk, n, c, content) == WriteCopy(g, WriteCopies(g, disk, n - 1, c, content), n - 1, c, content)
  {
  }

  lemma {:induction false} WriteCopiesData(g: Layout, disk: Disk, n: nat, c: nat, content: word)
    requires Formatted(g, disk) && n <= g.numFats && c < 128 * g.fatSize
    ensures forall s :: DataStart(g) <= s < |disk| ==> WriteCopies(g, disk, n, c, content)[s] == disk[s]
  {
    if n > 0 {
      WriteCopiesData(g, disk, n - 1, c, content);
      FatSectorFacts(g, disk, n - 1, c);
    }
  }

  /** `write_fat` keeps every copy in step with the cached table, and the reserved bits of every copy as they were. */
  lemma WriteFatMirrors(g: Layout, disk: Disk, fat: seq<word>, c: nat, content: word)
    requires Formatted(g, disk) && Mirrored(g, disk, fat) && c < |fat|
    ensures Mirrored(g, WriteCopies(g, disk, g.numFats, c, content), fat[c := content])
    ensures forall i, d :: 0 <= i < g.numFats && 0 <= d < |fat| ==>
      (FatSectorFacts(g, disk, i, d);
       High(Entry(g, WriteCopies(g, disk, g.numFats, c, content), i, d)) == High(Entry(g, disk, i, d)))
  {
    var after := WriteCopies(g, disk, g.numFats, c, content);
    forall i, d | 0 <= i < g.numFats && 0 <= d < |fat|
      ensures FatSector(g, i, d) < |disk| && Low(Entry(g, after, i, d)) == Low(fat[c := content][d])
      ensures High(Entry(g, after, i, d)) == High(Entry(g, disk, i, d))
    {
      FatSectorFacts(g, disk, i, d);
      WriteCopiesEntry(g, disk, g.numFats, c, content, i, d);
    }
  }

  predicate Checked(z: int) { true }

  /** Everything except the low bits of table entries is the same: the data area and the reserved bits of every copy. */
  ghost predicate Beside(g: Layout, before: Disk, after: Disk) {
    && |before| == |after|
    && forall z {:trigger Checked(z)} :: Checked(z) ==>
      && (forall s :: DataStart(g) <= s < |before| ==> after[s] == before[s])
      && forall i, d :: 0 <= i < g.numFats && 0 <= d < 128 * g.fatSize ==> HighAt(g, after, i, d) == HighAt(g, before, i, d)
  }

  function HighAt(g: Layout, disk: Disk, copy: nat, c: nat): int {
    if FatSector(g, copy, c) < |disk| && |disk[FatSector(g, copy, c)]| == 512 then High(Entry(g, disk, copy, c)) else -1
  }

  lemma BesideSelf(g: Layout, disk: Disk)
    ensures Beside(g, disk, disk)
  {
  }

  lemma BesideTrans(g: Layout, a: Disk, b: Disk, c: Disk)
    requires Beside(g, a, b) && Beside(g, b, c)
    ensures Beside(g, a, c)
  {
    assert Checked(0);
  }

  lemma BesideWrite(g: Layout, before: Disk, disk: Disk, c: nat, content: word)
    requires Formatted(g, disk) && Beside(g, before, disk) && c < 128 * g.fatSize
    ensures Beside(g, before, WriteCopies(g, disk, g.numFats, c, content))
  {
    var after := WriteCopies(g, disk, g.numFats, c, content);
    WriteCopiesData(g, disk, g.numFats, c, content);
    assert Checked(0);
    forall i, d | 0 <= i < g.numFats && 0 <= d < 128 * g.fatSize ensures HighAt(g, after, i, d) == HighAt(g, before, i, d) {
      FatSectorFacts(g, disk, i, d);
      WriteCopiesEntry(g, disk, g.numFats, c, content, i, d);
    }
  }
}
