/** The file allocation table as bytes on the disk: packed entries of 12, 16 or 32 bits
    behind the reserved sectors, and one sector-aligned copy of it behind it. */
module FatEntries {
  import Paging

  const SECTOR := 512
  const WRAP27 := 0x800_0000     // 32 bits hold `clus * 32` up to here

  type byte = Paging.byte
  type Disk = seq<seq<byte>>

  datatype Geometry = Geometry(ft: nat, rsvd: nat, fatSz: nat) {
    predicate Valid() {
      (ft == 12 || ft == 16 || ft == 32) && rsvd >= 1 && fatSz >= 1
    }

    function MaxClus(): nat { if ft == 32 then 0xFFFFFEF else if ft == 16 then 0xFFEF else 0xFEF }
    function Beoc(): nat { if ft == 32 then 0xFFFFFF8 else if ft == 16 then 0xFFF8 else 0xFF8 }
    function Eoc(): nat { if ft == 32 then 0xFFFFFFF else if ft == 16 then 0xFFFF else 0xFFF }

    /** Whole entries in one copy of the table. */
    function Count(): nat
      requires Valid()
    {
      fatSz * 4096 / ft
    }

    predicate Holds(clus: nat)
      requires Valid()
    {
      2 <= clus < Beoc() && clus < Count()
    }

    function Width(): nat { if ft == 32 then 4 else 2 }

    /** First byte of an entry. */
    function At(clus: nat): nat
      requires Valid()
    {
      clus * ft / 8
    }

    predicate Straddles(clus: nat)
      requires Valid()
    {
      ft == 12 && At(clus) % SECTOR == 511
    }

    /** The entries whose write misplaces its halves. */
    predicate Awkward(clus: nat)
      requires Valid()
    {
      Straddles(clus) && clus % 2 == 1
    }
  }

  ghost predicate DiskOk(g: Geometry, d: Disk) {
    |d| >= g.rsvd + 2 * g.fatSz && forall s :: 0 <= s < |d| ==> |d[s]| == SECTOR
  }

  function FatByte(g: Geometry, d: Disk, i: nat): int
    requires DiskOk(g, d) && i < g.fatSz * SECTOR
  {
    d[g.rsvd + i / SECTOR][i % SECTOR] as int
  }

  lemma InTable(g: Geometry, c: nat)
    requires g.Valid() && c < g.Count()
    ensures g.At(c) + g.Width() <= g.fatSz * SECTOR
  {
  }

  /** The number an entry holds, low byte first; two entries of 12 bits share a byte. */
  function Entry(g: Geometry, d: Disk, c: nat): nat
    requires g.Valid() && DiskOk(g, d) && c < g.Count()
  {
    InTable(g, c);
    var i := g.At(c);
    var low := FatByte(g, d, i) + 256 * FatByte(g, d, i + 1);
    if g.ft == 32 then low + 65536 * (FatByte(g, d, i + 2) + 256 * FatByte(g, d, i + 3))
    else if g.ft == 16 then low
    else if c % 2 == 1 then low / 16 else low % 4096
  }

  /** Two entries of 12 bits `c` and `c + 1` lie in three bytes, the lowest bits first, behind the
      reserved sectors; one of 16 bits in two, and one of 32 bits in four. */
  lemma Entries12(g: Geometry, d: Disk, c: nat)
    requires g.Valid() && DiskOk(g, d) && g.ft == 12 && c % 2 == 0 && c + 1 < g.Count()
    ensures var i := c / 2 * 3; i + 2 < g.fatSz * 512 && i / 512 < g.fatSz && (i + 1) / 512 < g.fatSz && (i + 2) / 512 < g.fatSz
    ensures var i := c / 2 * 3;
      var x, y, z := d[g.rsvd + i / 512][i % 512], d[g.rsvd + (i + 1) / 512][(i + 1) % 512], d[g.rsvd + (i + 2) / 512][(i + 2) % 512];
      Entry(g, d, c) + 0x1000 * Entry(g, d, c + 1) == x as int + 0x100 * y as int + 0x1_0000 * z as int && Entry(g, d, c) < 0x1000
  {
    InTable(g, c);
    InTable(g, c + 1);
    TwoIn3(g, d, c);
  }

  lemma TwoIn3(g: Geometry, d: Disk, c: nat)
    requires g.Valid() && DiskOk(g, d) && g.ft == 12 && c % 2 == 0 && c + 1 < g.Count() && c / 2 * 3 + 2 < g.fatSz * SECTOR
    ensures var i := c / 2 * 3;
      && Entry(g, d, c) == FatByte(g, d, i) + 0x100 * (FatByte(g, d, i + 1) % 16)
      && Entry(g, d, c + 1) == FatByte(g, d, i + 1) / 16 + 0x10 * FatByte(g, d, i + 2)
  {
    hide FatByte, DiskOk;
    At12(c);
    var i := c / 2 * 3;
    IsByte(g, d, i);
    IsByte(g, d, i + 1);
    Nibbles(FatByte(g, d, i), FatByte(g, d, i + 1));
    Nibbles(FatByte(g, d, i + 1), FatByte(g, d, i + 2));
  }

  lemma At12(c: nat)
    requires c % 2 == 0
    ensures c * 12 / 8 == c / 2 * 3 && (c + 1) * 12 / 8 == c / 2 * 3 + 1 && (c + 1) % 2 == 1
  {
  }

  lemma IsByte(g: Geometry, d: Disk, i: nat)
    requires DiskOk(g, d) && i < g.fatSz * SECTOR
    ensures 0 <= FatByte(g, d, i) < 256
  {
  }

  lemma Nibbles(x: int, y: int)
    requires 0 <= x < 256
    ensures (x + 256 * y) % 4096 == x + 0x100 * (y % 16) && (x + 256 * y) / 16 == x / 16 + 16 * y
  {
  }

  lemma Entries16(g: Geometry, d: Disk, c: nat)
    requires g.Valid() && DiskOk(g, d) && g.ft == 16 && c < g.Count()
    ensures c / 256 < g.fatSz
    ensures var x, o := d[g.rsvd + c / 256], c % 256 * 2; Entry(g, d, c) == x[o] as int + 0x100 * x[o + 1] as int
  {
    InTable(g, c);
    assert g.At(c) == 2 * c && 2 * c / 512 == c / 256 == (2 * c + 1) / 512 && 2 * c % 512 == c % 256 * 2;
  }

  lemma Entries32(g: Geometry, d: Disk, c: nat)
    requires g.Valid() && DiskOk(g, d) && g.ft == 32 && c < g.Count()
    ensures c / 128 < g.fatSz
    ensures var x, o := d[g.rsvd + c / 128], c % 128 * 4;
      Entry(g, d, c) == x[o] as int + 0x100 * x[o + 1] as int + 0x1_0000 * x[o + 2] as int + 0x100_0000 * x[o + 3] as int
  {
    InTable(g, c);
    assert g.At(c) == 4 * c && 4 * c % 512 == c % 128 * 4;
    assert 4 * c / 512 == c / 128 == (4 * c + 1) / 512 == (4 * c + 2) / 512 == (4 * c + 3) / 512;
  }

  ghost function Table(g: Geometry, d: Disk): (t: seq<nat>)
    requires g.Valid() && DiskOk(g, d)
    ensures |t| == g.Count() && forall c :: 0 <= c < |t| ==> t[c] == Entry(g, d, c)
  {
    seq(g.Count(), c requires 0 <= c < g.Count() => Entry(g, d, c))
  }

  // ---- what writing an entry must do to the bytes

  /** The 16 bits at an entry once it is `v`; the neighbour's nibble stays. */
  function Packed(ft: nat, odd: bool, t: int, v: nat): int {
    if ft == 16 then v % 65536
    else if odd then t % 16 + v % 4096 * 16 else t / 4096 * 4096 + v % 4096
  }

  ghost predicate Put(g: Geometry, d: Disk, d': Disk, c: nat, v: nat)
    requires g.Valid() && DiskOk(g, d) && DiskOk(g, d') && c < g.Count()
  {
    InTable(g, c);
    var i := g.At(c);
    && (forall j :: 0 <= j < g.fatSz * SECTOR && !(i <= j < i + g.Width()) ==> FatByte(g, d', j) == FatByte(g, d, j))
    && (if g.ft == 32 then
          FatByte(g, d', i) + 256 * FatByte(g, d', i + 1) + 65536 * (FatByte(g, d', i + 2) + 256 * FatByte(g, d', i + 3)) == v
        else
          FatByte(g, d', i) + 256 * FatByte(g, d', i + 1)
          == Packed(g.ft, c % 2 == 1, FatByte(g, d, i) + 256 * FatByte(g, d, i + 1), v))
  }

  /** Then this entry is `v` and every other one is what it was. */
  lemma PutOne(g: Geometry, d: Disk, d': Disk, c: nat, v: nat, e: nat)
    requires g.Valid() && DiskOk(g, d) && DiskOk(g, d') && c < g.Count() && e < g.Count() && Put(g, d, d', c, v)
    requires if g.ft == 32 then v < 0x1_0000_0000 else if g.ft == 16 then v < 0x1_0000 else v < 0x1000
    ensures Entry(g, d', e) == if e == c then v else Entry(g, d, e)
  {
    hide FatByte;
    InTable(g, c);
    InTable(g, e);
    if g.ft == 12 { PutOne12(g, d, d', c, v, e); }
  }

  lemma PutOne12(g: Geometry, d: Disk, d': Disk, c: nat, v: nat, e: nat)
    requires g.Valid() && DiskOk(g, d) && DiskOk(g, d') && c < g.Count() && e < g.Count() && Put(g, d, d', c, v)
    requires g.ft == 12 && v < 0x1000
    ensures Entry(g, d', e) == if e == c then v else Entry(g, d, e)
  {
    hide FatByte, Packed;
    InTable(g, c);
    InTable(g, e);
    var i, j := g.At(c), g.At(e);
    ByteRange(g, d, i); ByteRange(g, d, i + 1); ByteRange(g, d', i); ByteRange(g, d', i + 1);
    ByteRange(g, d, j); ByteRange(g, d, j + 1);
    Halves(c % 2 == 1, FatByte(g, d, i), FatByte(g, d, i + 1), FatByte(g, d', i), FatByte(g, d', i + 1), v);
    Neighbours(c, e);
    Shared(FatByte(g, d, j), FatByte(g, d', j), FatByte(g, d, j + 1), FatByte(g, d', j + 1));
  }

  /** Entries of 12 bits share a byte exactly with the other one of their pair. */
  lemma Neighbours(c: nat, e: nat)
    ensures var i, j := c * 12 / 8, e * 12 / 8;
      if e == c then j == i
      else if e == c + 1 && c % 2 == 0 then j == i + 1 && e % 2 == 1
      else if c == e + 1 && c % 2 == 1 then i == j + 1 && e % 2 == 0
      else j + 1 < i || i + 1 < j
  {
    Start12(c);
    Start12(e);
  }

  lemma Start12(c: nat)
    ensures c * 12 / 8 == c + c / 2
  {
  }

  lemma Shared(a: int, a': int, b: int, b': int)
    requires 0 <= a < 256 && 0 <= b < 256
    ensures a / 16 == a' / 16 && b == b' ==> (a' + 256 * b') / 16 == (a + 256 * b) / 16
    ensures b % 16 == b' % 16 && a == a' ==> (a' + 256 * b') % 4096 == (a + 256 * b) % 4096
  {
    Top(a, b);
    Top(a', b');
    Bottom(a, b);
    if a == a' { Bottom(a', b'); }
  }

  lemma Top(a: int, b: int)
    ensures (a + 256 * b) / 16 == a / 16 + 16 * b
  {
  }

  lemma Bottom(a: int, b: int)
    requires 0 <= a < 256
    ensures (a + 256 * b) % 4096 == a + 256 * (b % 16)
  {
    var q, r := b / 16, b % 16;
    assert b == 16 * q + r;
    assert a + 256 * b == 4096 * q + (a + 256 * r);
  }

  lemma ByteRange(g: Geometry, d: Disk, i: nat)
    requires DiskOk(g, d) && i < g.fatSz * SECTOR
    ensures 0 <= FatByte(g, d, i) < 256
  {
  }

  /** The nibble of the neighbour survives in the shared byte. */
  lemma Halves(odd: bool, b0: int, b1: int, c0: int, c1: int, v: nat)
    requires 0 <= b0 < 256 && 0 <= b1 < 256 && 0 <= c0 < 256 && 0 <= c1 < 256 && v < 0x1000
    requires c0 + 256 * c1 == Packed(12, odd, b0 + 256 * b1, v)
    ensures if odd then c0 % 16 == b0 % 16 && (c0 + 256 * c1) / 16 == v else c1 / 16 == b1 / 16 && (c0 + 256 * c1) % 4096 == v
  {
    if odd { OddHalf(b0, b1, c0, c1, v); } else { EvenHalf(b0, b1, c0, c1, v); }
  }

  lemma OddHalf(b0: int, b1: int, c0: int, c1: int, v: nat)
    requires 0 <= b0 < 256 && 0 <= b1 && 0 <= c0 < 256 && v < 0x1000 && c0 + 256 * c1 == (b0 + 256 * b1) % 16 + v * 16
    ensures c0 % 16 == b0 % 16 && (c0 + 256 * c1) / 16 == v
  {
    LowNibble(b0, b1);
    LowNibble(c0, c1);
    Split16(c0 + 256 * c1, b0 % 16, v);
  }

  lemma LowNibble(a: int, b: int)
    ensures (a + 256 * b) % 16 == a % 16
  {
    Split16(a + 256 * b, a % 16, a / 16 + 16 * b);
  }

  lemma Split16(x: int, r: int, q: int)
    requires 0 <= r < 16 && x == r + q * 16
    ensures x % 16 == r && x / 16 == q
  {
  }

  lemma EvenHalf(b0: int, b1: int, c0: int, c1: int, v: nat)
    requires 0 <= b0 < 256 && 0 <= b1 < 256 && 0 <= c0 < 256 && v < 0x1000 && c0 + 256 * c1 == (b0 + 256 * b1) / 4096 * 4096 + v
    ensures c1 / 16 == b1 / 16 && (c0 + 256 * c1) % 4096 == v
  {
    assert (b0 + 256 * b1) / 4096 == b1 / 16;
    var x := c0 + 256 * c1;
    assert x / 4096 == b1 / 16 && x % 4096 == v;
    assert x / 4096 == c1 / 16;
  }

  lemma PutTable(g: Geometry, d: Disk, d': Disk, c: nat, v: nat)
    requires g.Valid() && DiskOk(g, d) && DiskOk(g, d') && c < g.Count() && Put(g, d, d', c, v)
    requires if g.ft == 32 then v < 0x1_0000_0000 else if g.ft == 16 then v < 0x1_0000 else v < 0x1000
    ensures Table(g, d') == Table(g, d)[c := v]
  {
    hide Put, Entry;
    forall e | 0 <= e < g.Count()
      ensures Entry(g, d', e) == if e == c then v else Entry(g, d, e)
    {
      PutOne(g, d, d', c, v, e);
    }
  }
}
