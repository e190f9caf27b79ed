/** The data area of a FAT file system: where clusters lie, and that changes of the table leave
    the bytes of files alone. */
module FatData {
  import opened Basics
  import opened FatEntries
  import opened FatTable
  import opened FatWrite
  import opened FatChain
  import opened FatRelease
  import opened FatFile

  // ---- where clusters lie

  /** Cluster 2 starts behind the reserved sectors, the tables and, but for FAT32, the root
      directory; every other one where the one before it ends. */
  lemma Tiles(g: Geometry, l: Layout, c: nat)
    requires c >= 2
    ensures l.First(g, 2) == g.rsvd + l.numFats * g.fatSz + if g.ft == 32 then 0 else l.rootEnt * 32 / 512
    ensures l.First(g, c + 1) == l.First(g, c) + l.secPerClus
    ensures l.First(g, c) >= l.First(g, 2)
  {
    assert (c + 1 - 2) * l.secPerClus == (c - 2) * l.secPerClus + l.secPerClus;
    assert (c - 2) * l.secPerClus >= 0;
  }

  /** So no two clusters have a sector in common. */
  lemma ClustersApart(g: Geometry, l: Layout, a: nat, b: nat)
    requires 2 <= a < b
    ensures l.First(g, a) + l.secPerClus <= l.First(g, b)
  {
    assert (a - 2) * l.secPerClus + l.secPerClus == (a - 1) * l.secPerClus;
    Times(a - 1, b - 2, l.secPerClus);
  }

  /** With two tables at least, clusters lie behind both copies that are written. */
  lemma BehindTables(g: Geometry, l: Layout, c: nat)
    requires l.numFats >= 2 && c >= 2
    ensures l.First(g, c) >= g.rsvd + 2 * g.fatSz
  {
    Tiles(g, l, c);
    Times(2, l.numFats, g.fatSz);
  }

  /** Byte `p` of a file by sector and place. */
  lemma ContentIs(g: Geometry, l: Layout, d: Disk, ch: seq<nat>, p: nat)
    requires AllOnDisk(g, l, d, ch) && p < |Content(g, l, d, ch)|
    ensures |Content(g, l, d, ch)| == |ch| * (l.secPerClus * 512)
    ensures var cb := l.secPerClus * 512;
      && p / cb < |ch|
      && var s := g.rsvd + l.numFats * g.fatSz + (if g.ft == 32 then 0 else l.rootEnt * 32 / 512)
                  + (ch[p / cb] - 2) * l.secPerClus + p % cb / 512;
        0 <= s < |d| && Content(g, l, d, ch)[p] == d[s][p % cb % 512]
  {
    hide Content, ByteAt, AllOnDisk;
    ContentLength(g, l, d, ch);
    Inside(p, |ch|, l.ClusBytes());
    AtPlace(g, l, d, ch, p);
  }

  // ---- what changes of the table do to files

  /** Sectors behind the two copies of the table that are the same hold the same files. */
  lemma SameData(g: Geometry, l: Layout, d: Disk, d': Disk, ch: seq<nat>)
    requires AllOnDisk(g, l, d, ch) && DiskOk(g, d') && |d'| == |d| && l.numFats >= 2
    requires forall s :: g.rsvd + 2 * g.fatSz <= s < |d| ==> d'[s] == d[s]
    ensures AllOnDisk(g, l, d', ch) && Content(g, l, d', ch) == Content(g, l, d, ch)
  {
    hide ByteAt, Content;
    assert AllOnDisk(g, l, d', ch);
    ContentLength(g, l, d, ch);
    ContentLength(g, l, d', ch);
    forall p | 0 <= p < |Content(g, l, d, ch)|
      ensures Content(g, l, d', ch)[p] == Content(g, l, d, ch)[p]
    {
      SameByte(g, l, d, d', ch, p);
    }
  }

  lemma SameByte(g: Geometry, l: Layout, d: Disk, d': Disk, ch: seq<nat>, p: nat)
    requires AllOnDisk(g, l, d, ch) && AllOnDisk(g, l, d', ch) && |d'| == |d| && l.numFats >= 2 && p < |ch| * l.ClusBytes()
    requires forall s :: g.rsvd + 2 * g.fatSz <= s < |d| ==> d'[s] == d[s]
    ensures |Content(g, l, d, ch)| == |Content(g, l, d', ch)| == |ch| * l.ClusBytes()
    ensures Content(g, l, d', ch)[p] == Content(g, l, d, ch)[p]
  {
    hide Content, ByteAt, Place, Layout.ClusBytes;
    ContentLength(g, l, d, ch);
    ContentLength(g, l, d', ch);
    AtPlace(g, l, d, ch, p);
    AtPlace(g, l, d', ch, p);
  }

  /** The sector and the place in it of byte `p` of a file. */
  function Place(g: Geometry, l: Layout, ch: seq<nat>, p: nat): (int, nat)
    requires l.secPerClus > 0 && p < |ch| * l.ClusBytes()
  {
    Inside(p, |ch|, l.ClusBytes());
    (l.First(g, ch[p / l.ClusBytes()]) + p % l.ClusBytes() / 512, p % l.ClusBytes() % 512)
  }

  lemma AtPlace(g: Geometry, l: Layout, d: Disk, ch: seq<nat>, p: nat)
    requires AllOnDisk(g, l, d, ch) && p < |ch| * l.ClusBytes() == |Content(g, l, d, ch)|
    ensures var (s, o) := Place(g, l, ch, p);
      0 <= s < |d| && o < 512 && Content(g, l, d, ch)[p] == d[s][o] && (l.numFats >= 2 ==> g.rsvd + 2 * g.fatSz <= s)
  {
    Inside(p, |ch|, l.ClusBytes());
    var c := ch[p / l.ClusBytes()];
    StartsInside(g, l, c);
    SectorsAt(d, l.First(g, c), l.secPerClus, p % l.ClusBytes());
    if l.numFats >= 2 { BehindTables(g, l, c); }
  }

  /** `writenextclus` changes no byte of any file, and no chain but the one of its cluster. */
  lemma WriteKeepsFiles(g: Geometry, l: Layout, d: Disk, clus: nat, v: nat, ch: seq<nat>)
    requires g.Valid() && clus < g.Count() && DiskOk(g, d) && CanWrite(g, d, clus) && v < TWO32 && WriteRight(g, clus, v)
    requires l.numFats >= 2 && AllOnDisk(g, l, d, ch)
    ensures var d' := After(g, d, clus, v);
      && AllOnDisk(g, l, d', ch) && Content(g, l, d', ch) == Content(g, l, d, ch)
      && (Chain(g, Table(g, d), ch) && clus !in ch ==> Chain(g, Table(g, d'), ch))
  {
    hide After, Table, AllOnDisk, Content, Chain;
    var d' := After(g, d, clus, v);
    AfterTable(g, d, clus, v);
    RestOnly(g, d, d', clus);
    SameData(g, l, d, d', ch);
    if Chain(g, Table(g, d), ch) && clus !in ch {
      ChainElsewhere(g, Table(g, d), Table(g, d'), ch);
    }
  }

  /** `releaseclus` in one file leaves every disjoint one as it was: its chain and its bytes. */
  lemma ReleaseKeepsFiles(g: Geometry, l: Layout, d: Disk, ch: seq<nat>, k: nat, flag: bool, other: seq<nat>)
    requires g.Valid() && DiskOk(g, d) && Chain(g, Table(g, d), ch) && k < |ch|
    requires Clearable(g, ch[k + 1..]) && WriteRight(g, ch[k], Mark(g, flag))
    requires Chain(g, Table(g, d), other) && forall c :: c in other ==> c !in ch
    requires l.numFats >= 2 && AllOnDisk(g, l, d, other)
    ensures ReleaseEnds(g, d, ch[k], flag)
    ensures var d' := Released(g, d, ch[k], flag);
      && Chain(g, Table(g, d'), other)
      && AllOnDisk(g, l, d', other) && Content(g, l, d', other) == Content(g, l, d, other)
  {
    hide Released, Table, AllOnDisk, Content, Chain, ReleaseEnds, WriteRight;
    ReleaseFreesTail(g, d, ch, k, flag);
    ReleaseSparesOthers(g, d, ch, k, flag, other);
    SameData(g, l, d, Released(g, d, ch[k], flag), other);
  }

  lemma FirstByte(g: Geometry, l: Layout)
    requires g.ft == 32 && l.numFats == 1 && l.secPerClus > 0
    ensures 8 < 1 * l.ClusBytes() && |[2]| == 1 && Place(g, l, [2], 8) == (g.rsvd + g.fatSz, 8)
  {
    Quotient(0, 8, l.ClusBytes());
    Tiles(g, l, 2);
  }

  /** With one table and no root directory behind it, the second copy goes over the data: giving
      cluster 2 a link changes the bytes of cluster 2. */
  lemma OneTableDamages(g: Geometry, l: Layout) returns (d: Disk)
    requires g.Valid() && g.ft == 32 && l.numFats == 1 && l.secPerClus > 0 && g.Holds(2)
    ensures AllOnDisk(g, l, d, [2]) && OnDisk(g, d, 2)
    ensures AllOnDisk(g, l, After(g, d, 2, 0xFFFFFFF), [2])
    ensures Content(g, l, After(g, d, 2, 0xFFFFFFF), [2]) != Content(g, l, d, [2])
  {
    hide Spotted, Content, ByteAt, Place;
    d := Spotted(g.rsvd + 2 * g.fatSz + l.secPerClus, g.rsvd + 2 * g.fatSz + l.secPerClus);
    HeldOnDisk(g, d, 2);
    var d' := After(g, d, 2, 0xFFFFFFF);
    FirstByte(g, l);
    AtPlace(g, l, d, [2], 8);
    AtPlace(g, l, d', [2], 8);
    assert d'[g.rsvd + g.fatSz][8] == 255 && d[g.rsvd + g.fatSz][8] == 0;
  }
}
