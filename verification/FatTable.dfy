/** kernel/fat.c: one sector of the disk is cached; entries of the table are read and
    written through it. */
module FatTable {
  import opened Basics
  import opened FatEntries

  // ---- the sectors and the places in them where the code looks

  /** The sector in which an entry is written. */
  function Home(g: Geometry, clus: nat): nat
    requires g.Valid()
  {
    g.rsvd + g.At(clus) / SECTOR
  }

  /** The sector in which it is read: its number is computed in 32 bits. */
  function ReadAt(g: Geometry, clus: nat): nat
    requires g.Valid()
  {
    clus * g.ft % TWO32 / 8 / SECTOR + g.rsvd
  }

  /** The sectors that reading an entry asks for are on the disk. */
  predicate CanRead(g: Geometry, d: Disk, clus: nat)
    requires g.Valid()
  {
    ReadAt(g, clus) < |d| && (g.Straddles(clus) ==> g.At(clus) / SECTOR + 2 < |d|)
  }

  /** And so are those that writing it touches. */
  predicate CanWrite(g: Geometry, d: Disk, clus: nat)
    requires g.Valid()
  {
    && Home(g, clus) + g.fatSz < |d| && (g.Straddles(clus) ==> Home(g, clus) + 1 + g.fatSz < |d|)
    && (g.Awkward(clus) ==> g.At(clus) / SECTOR + 10 < |d|)
  }

  predicate OnDisk(g: Geometry, d: Disk, clus: nat)
    requires g.Valid()
  {
    2 <= clus < g.Beoc() && CanRead(g, d, clus) && CanWrite(g, d, clus)
  }

  function WordIn(x: seq<byte>, o: nat): (w: int)
    requires o + 1 < |x|
    ensures 0 <= w < 65536
  {
    x[o] as int + 256 * x[o + 1] as int
  }

  function WithWord(x: seq<byte>, o: nat, w: nat): (r: seq<byte>)
    requires o + 1 < |x| && w < 65536
    ensures |r| == |x| && WordIn(r, o) == w
  {
    x[o := (w % 256) as byte][o + 1 := (w / 256) as byte]
  }

  /** The place of an entry in its sector. */
  function Offset(g: Geometry, clus: nat): (o: nat)
    requires g.Valid()
    ensures o < SECTOR && (!g.Straddles(clus) ==> o + g.Width() <= SECTOR)
  {
    if g.ft == 32 then clus % 128 * 4 else if g.ft == 16 then clus % 256 * 2 else clus * 12 / 8 % SECTOR
  }

  /** What `getnextclus` finds for a cluster. The second half of a straddling entry is
      looked for in sector `...+2`, however many sectors are reserved. */
  function Seen(g: Geometry, d: Disk, clus: nat): nat
    requires g.Valid() && DiskOk(g, d) && CanRead(g, d, clus)
  {
    var x, o := d[ReadAt(g, clus)], Offset(g, clus);
    if g.Straddles(clus) then
      var y := d[g.At(clus) / SECTOR + 2][0] as int;
      if clus % 2 == 1 then x[511] as int / 16 + y * 16 else x[511] as int + y % 16 * 256
    else if g.ft == 12 then if clus % 2 == 1 then WordIn(x, o) / 16 else WordIn(x, o) % 4096
    else if g.ft == 16 then WordIn(x, o)
    else WordIn(x, o) + 65536 * WordIn(x, o + 2)
  }

  /** The clusters for which that is the entry. */
  predicate ReadsRight(g: Geometry, clus: nat)
    requires g.Valid()
  {
    (g.ft == 32 ==> clus < WRAP27) && (g.Straddles(clus) ==> g.rsvd == 1)
  }

  /** Where each width finds its entry. */
  lemma Places(g: Geometry, clus: nat)
    requires g.Valid()
    ensures g.ft == 12 ==> g.At(clus) == clus * 12 / 8 && (g.Straddles(clus) <==> clus * 12 / 8 % 512 == 511)
    ensures g.ft == 16 ==> g.At(clus) == clus * 2 && g.At(clus) / SECTOR == clus * 2 / 512
    ensures g.ft == 32 ==> g.At(clus) == clus * 4 && g.At(clus) / SECTOR == clus * 4 / 512
    ensures g.ft != 12 ==> !g.Straddles(clus)
    ensures g.Awkward(clus) <==> g.Straddles(clus) && clus % 2 == 1
    ensures Offset(g, clus) == g.At(clus) % SECTOR
  {
    if g.ft == 16 { Places16(clus); }
    if g.ft == 32 { Places32(clus); }
  }

  lemma Places16(clus: nat)
    ensures clus * 16 / 8 == clus * 2 && clus * 2 % 512 == clus % 256 * 2
  {
    assert clus == 256 * (clus / 256) + clus % 256;
    assert clus * 2 == 512 * (clus / 256) + clus % 256 * 2;
  }

  lemma Places32(clus: nat)
    ensures clus * 32 / 8 == clus * 4 && clus * 4 % 512 == clus % 128 * 4
  {
    assert clus == 128 * (clus / 128) + clus % 128;
    assert clus * 4 == 512 * (clus / 128) + clus % 128 * 4;
  }

  /** The sector number is right below 2^27, and beyond that the one of `clus % 2^27`. */
  lemma ReadsHome(g: Geometry, clus: nat)
    requires g.Valid() && clus < g.Beoc()
    ensures ReadAt(g, clus) == Home(g, if g.ft == 32 then clus % WRAP27 else clus)
  {
    if g.ft == 32 {
      Wrap32(clus);
    } else {
      assert clus * g.ft < TWO32;
    }
  }

  lemma Wrap32(clus: nat)
    ensures clus * 32 % TWO32 == clus % WRAP27 * 32 && clus % WRAP27 % 128 == clus % 128
  {
  }

  lemma EntryInSector(g: Geometry, clus: nat)
    requires g.Valid() && clus < g.Count()
    ensures g.At(clus) / SECTOR < g.fatSz
    ensures !g.Straddles(clus) ==> g.At(clus) % SECTOR + g.Width() <= SECTOR
    ensures g.Straddles(clus) ==> g.At(clus) / SECTOR + 1 < g.fatSz
  {
    InTable(g, clus);
    Places(g, clus);
  }

  /** Every entry of the table can be read, and all but odd straddling ones written. */
  lemma HeldOnDisk(g: Geometry, d: Disk, clus: nat)
    requires g.Valid() && DiskOk(g, d) && g.Holds(clus)
    ensures CanRead(g, d, clus) && (!g.Awkward(clus) ==> OnDisk(g, d, clus))
  {
    ReadsHome(g, clus);
    EntryInSector(g, clus);
    if g.ft == 32 { EntryInSector(g, clus % WRAP27); }
  }

  lemma FatByteAt(g: Geometry, d: Disk, i: nat)
    requires DiskOk(g, d) && i < g.fatSz * SECTOR
    ensures g.rsvd + i / SECTOR < |d| && FatByte(g, d, i) == d[g.rsvd + i / SECTOR][i % SECTOR] as int
  {
  }

  lemma SameSector(i: nat, w: nat)
    requires i % SECTOR + w <= SECTOR
    ensures forall k :: i <= k < i + w ==> k / SECTOR == i / SECTOR && k % SECTOR == i % SECTOR + (k - i)
  {
  }

  lemma WordAt(g: Geometry, d: Disk, i: nat)
    requires DiskOk(g, d) && i + 1 < g.fatSz * SECTOR && i % SECTOR + 2 <= SECTOR
    ensures g.rsvd + i / SECTOR < |d|
    ensures FatByte(g, d, i) + 256 * FatByte(g, d, i + 1) == WordIn(d[g.rsvd + i / SECTOR], i % SECTOR)
  {
    SameSector(i, 2);
    FatByteAt(g, d, i);
    FatByteAt(g, d, i + 1);
  }

  lemma SeenIsEntry(g: Geometry, d: Disk, clus: nat)
    requires g.Valid() && DiskOk(g, d) && g.Holds(clus) && ReadsRight(g, clus)
    ensures CanRead(g, d, clus) && Seen(g, d, clus) == Entry(g, d, clus)
  {
    hide FatByte, WordIn, Geometry.At, Geometry.Straddles, Geometry.Count, Offset, ReadAt;
    HeldOnDisk(g, d, clus);
    InTable(g, clus);
    Places(g, clus);
    EntryInSector(g, clus);
    ReadsHome(g, clus);
    var i := g.At(clus);
    if g.Straddles(clus) {
      SeenAcross(g, d, clus);
    } else {
      WordAt(g, d, i);
      if g.ft == 32 {
        SameSector(i, 4);
        WordAt(g, d, i + 2);
      }
    }
  }

  lemma SeenAcross(g: Geometry, d: Disk, clus: nat)
    requires g.Valid() && DiskOk(g, d) && g.Holds(clus) && g.Straddles(clus) && CanRead(g, d, clus)
    ensures ReadAt(g, clus) == Home(g, clus)
    ensures g.rsvd == 1 ==> Seen(g, d, clus) == Entry(g, d, clus)
  {
    hide FatByte;
    InTable(g, clus);
    ReadsHome(g, clus);
    var i := g.At(clus);
    assert (i + 1) / SECTOR == i / SECTOR + 1 && (i + 1) % SECTOR == 0;
    FatByteAt(g, d, i);
    FatByteAt(g, d, i + 1);
    ByteRange(g, d, i);
    ByteRange(g, d, i + 1);
    TwoBytes(FatByte(g, d, i), FatByte(g, d, i + 1));
  }

  lemma TwoBytes(a: int, b: int)
    requires 0 <= a < 256 && 0 <= b < 256
    ensures (a + 256 * b) / 16 == a / 16 + b * 16 && (a + 256 * b) % 4096 == a + b % 16 * 256
  {
  }

  /** A disk of zeros but for one sector of 17s. */
  function Spotted(n: nat, spot: nat): (d: Disk)
    ensures |d| == n && forall s :: 0 <= s < n ==> |d[s]| == SECTOR && forall o :: 0 <= o < SECTOR ==>
      d[s][o] == if s == spot then 17 else 0
  {
    seq(n, s => seq(SECTOR, _ => if s == spot then 17 else 0))
  }

  /** Exactly these: for any other cluster some table is read wrongly. */
  lemma SeenWrong(g: Geometry, clus: nat) returns (d: Disk)
    requires g.Valid() && g.Holds(clus) && !ReadsRight(g, clus)
    ensures DiskOk(g, d) && CanRead(g, d, clus) && Seen(g, d, clus) != Entry(g, d, clus)
  {
    InTable(g, clus);
    var last := g.rsvd + (g.At(clus) + 1) / SECTOR;
    d := Spotted(g.rsvd + 2 * g.fatSz, last);
    HeldOnDisk(g, d, clus);
    if g.ft == 32 { Wrong32(g, d, clus, last); } else { Wrong12(g, d, clus, last); }
  }

  lemma Wrong32(g: Geometry, d: Disk, clus: nat, last: nat)
    requires g.Valid() && DiskOk(g, d) && g.Holds(clus) && g.ft == 32 && clus >= WRAP27 && CanRead(g, d, clus)
    requires d == Spotted(|d|, last) && last == g.rsvd + (g.At(clus) + 1) / SECTOR
    ensures Seen(g, d, clus) != Entry(g, d, clus)
  {
    hide FatByte, Spotted;
    InTable(g, clus);
    Places(g, clus);
    ReadsHome(g, clus);
    Places(g, clus % WRAP27);
    var i := g.At(clus);
    SameSector(i, 4);
    FatByteAt(g, d, i);
    ByteRange(g, d, i + 1); ByteRange(g, d, i + 2); ByteRange(g, d, i + 3);
    assert clus % WRAP27 * 4 / 512 != clus * 4 / 512;
  }

  lemma Wrong12(g: Geometry, d: Disk, clus: nat, last: nat)
    requires g.Valid() && DiskOk(g, d) && g.Holds(clus) && g.Straddles(clus) && g.rsvd != 1 && CanRead(g, d, clus)
    requires d == Spotted(|d|, last) && last == g.rsvd + (g.At(clus) + 1) / SECTOR
    ensures Seen(g, d, clus) != Entry(g, d, clus)
  {
    hide FatByte, Spotted;
    InTable(g, clus);
    EntryInSector(g, clus);
    ReadsHome(g, clus);
    var i := g.At(clus);
    assert (i + 1) / SECTOR == i / SECTOR + 1 && (i + 1) % SECTOR == 0;
    FatByteAt(g, d, i);
    FatByteAt(g, d, i + 1);
    TwoBytes(0, 17);
  }
}
