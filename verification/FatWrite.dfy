/** kernel/fat.c `writenextclus` on the sectors of a disk: exactly what it leaves there,
    and when that is the new entry and nothing else. */
module FatWrite {
  import opened Basics
  import opened FatEntries
  import opened FatTable

  /** `a | b`. */
  function Or(a: nat, b: nat): nat {
    if a == 0 then b else if b == 0 then a
    else (if a % 2 == 1 || b % 2 == 1 then 1 else 0) + 2 * Or(a / 2, b / 2)
  }

  /** One sector, also at the same place one table further. */
  function Both(g: Geometry, d: Disk, s: nat, x: seq<byte>): (r: Disk)
    requires DiskOk(g, d) && |x| == SECTOR && s + g.fatSz < |d|
    ensures DiskOk(g, r) && |r| == |d|
  {
    d[s := x][s + g.fatSz := x]
  }

  /** A sector with the new value of an entry inside it. */
  function WithEntry(g: Geometry, x: seq<byte>, clus: nat, v: nat): (r: seq<byte>)
    requires g.Valid() && !g.Straddles(clus) && |x| == SECTOR && v < TWO32
    ensures |r| == SECTOR
  {
    var o := Offset(g, clus);
    if g.ft == 32 then WithWord(WithWord(x, o, v % 65536), o + 2, v / 65536)
    else
      PackedRange(g.ft, clus % 2 == 1, WordIn(x, o), v);
      WithWord(x, o, Packed(g.ft, clus % 2 == 1, WordIn(x, o), v))
  }

  lemma PackedRange(ft: nat, odd: bool, t: int, v: nat)
    requires 0 <= t < 65536
    ensures 0 <= Packed(ft, odd, t, v) < 65536
  {
  }

  /** The disk after `writenextclus`. An odd entry across two sectors has its first half put
      into sectors `...+1` and `...+10`, whatever the layout, without its bits. */
  function After(g: Geometry, d: Disk, clus: nat, v: nat): (r: Disk)
    requires g.Valid() && DiskOk(g, d) && CanWrite(g, d, clus) && v < TWO32
    ensures DiskOk(g, r) && |r| == |d|
  {
    var s, q := Home(g, clus), g.At(clus) / SECTOR;
    if !g.Straddles(clus) then Both(g, d, s, WithEntry(g, d[s], clus, v))
    else if clus % 2 == 1 then
      var x := d[s][511 := (Or(d[s][511] as int % 16, v % 16) % 256) as byte];
      var d1 := d[q + 1 := x][q + 10 := x];
      Both(g, d1, s + 1, d1[s + 1][0 := (v / 16 % 256) as byte])
    else
      var d1 := Both(g, d, s, d[s][511 := (v % 256) as byte]);
      Both(g, d1, s + 1, d1[s + 1][0 := (Or(d1[s + 1][0] as int / 16 * 16, v / 256) % 256) as byte])
  }

  // ---- what that means for the table

  predicate Touched(g: Geometry, clus: nat, s: int)
    requires g.Valid()
  {
    s == g.rsvd + g.At(clus) / SECTOR || s == g.rsvd + (g.At(clus) + g.Width() - 1) / SECTOR
  }

  /** The two copies of the table agree. */
  ghost predicate Mirrored(g: Geometry, d: Disk)
    requires DiskOk(g, d)
  {
    forall s :: g.rsvd <= s < g.rsvd + g.fatSz ==> d[s] == d[s + g.fatSz]
  }

  /** What a write should leave besides the entry: only the sectors of the entry and their
      twins differ, and these agree. */
  ghost predicate Rest(g: Geometry, d: Disk, d': Disk, clus: nat)
    requires g.Valid() && DiskOk(g, d) && DiskOk(g, d')
  {
    && |d'| == |d|
    && (forall s :: 0 <= s < |d| && !Touched(g, clus, s) && !Touched(g, clus, s - g.fatSz) ==> d'[s] == d[s])
    && (forall s :: g.rsvd <= s < g.rsvd + g.fatSz && Touched(g, clus, s) ==> d'[s] == d'[s + g.fatSz])
    && (Mirrored(g, d) ==> Mirrored(g, d'))
  }

  /** The writes that do what they should. An odd straddling entry is right only for values
      without low bits, 0 for example, on a disk with one reserved sector and 9 sectors a
      table; of an even one a value too wide for it damages the neighbour. */
  predicate WriteRight(g: Geometry, clus: nat, v: nat)
    requires g.Valid()
  {
    g.Straddles(clus) ==> if clus % 2 == 1 then g.rsvd == 1 && g.fatSz == 9 && v % 16 == 0 else v / 4096 % 16 == 0
  }

  lemma BothBytes(g: Geometry, d: Disk, s: nat, x: seq<byte>, i: nat)
    requires DiskOk(g, d) && |x| == SECTOR && g.rsvd <= s < g.rsvd + g.fatSz && i < g.fatSz * SECTOR
    ensures FatByte(g, Both(g, d, s, x), i) == if g.rsvd + i / SECTOR == s then x[i % SECTOR] as int else FatByte(g, d, i)
  {
  }

  /** One sector written to both copies, changed only at the bytes of the entry. */
  lemma PutInside(g: Geometry, d: Disk, clus: nat, v: nat, x: seq<byte>)
    requires g.Valid() && DiskOk(g, d) && clus < g.Count() && !g.Straddles(clus) && |x| == SECTOR
    requires var s, o := Home(g, clus), g.At(clus) % SECTOR;
      && o + g.Width() <= SECTOR && s < g.rsvd + g.fatSz
      && (forall j :: 0 <= j < SECTOR && !(o <= j < o + g.Width()) ==> x[j] == d[s][j])
      && (if g.ft == 32 then WordIn(x, o) + 65536 * WordIn(x, o + 2) == v
          else WordIn(x, o) == Packed(g.ft, clus % 2 == 1, WordIn(d[s], o), v))
    ensures Put(g, d, Both(g, d, Home(g, clus), x), clus, v)
  {
    InTable(g, clus);
    var i, s, o := g.At(clus), Home(g, clus), g.At(clus) % SECTOR;
    var d' := Both(g, d, s, x);
    forall j | 0 <= j < g.fatSz * SECTOR
      ensures FatByte(g, d', j) == if g.rsvd + j / SECTOR == s then x[j % SECTOR] as int else FatByte(g, d, j)
    {
      BothBytes(g, d, s, x, j);
    }
    SameSector(i, g.Width());
  }

  /** The halves of a straddling entry, each at the edge of a sector. */
  lemma PutAcross(g: Geometry, d: Disk, clus: nat, v: nat, x: seq<byte>, y: seq<byte>)
    requires g.Valid() && DiskOk(g, d) && clus < g.Count() && g.Straddles(clus) && |x| == |y| == SECTOR
    requires var s := Home(g, clus);
      && s + 1 < g.rsvd + g.fatSz
      && (forall j :: 0 <= j < 511 ==> x[j] == d[s][j]) && (forall j :: 1 <= j < SECTOR ==> y[j] == d[s + 1][j])
      && x[511] as int + 256 * y[0] as int == Packed(12, clus % 2 == 1, d[s][511] as int + 256 * d[s + 1][0] as int, v)
    ensures var s := Home(g, clus); Put(g, d, Both(g, Both(g, d, s, x), s + 1, y), clus, v)
  {
    hide Packed, Both, FatByte;
    InTable(g, clus);
    var i, s := g.At(clus), Home(g, clus);
    var d2 := Both(g, Both(g, d, s, x), s + 1, y);
    Edge(i);
    FatByteAt(g, d, i);
    FatByteAt(g, d, i + 1);
    forall j | 0 <= j < g.fatSz * SECTOR
      ensures FatByte(g, d2, j) == if j == i then x[511] as int else if j == i + 1 then y[0] as int else FatByte(g, d, j)
    {
      AcrossBytes(g, d, s, x, y, j);
      Edges(i, j);
      FatByteAt(g, d, j);
    }
  }

  lemma Edge(i: nat)
    requires i % SECTOR == 511
    ensures (i + 1) / SECTOR == i / SECTOR + 1 && (i + 1) % SECTOR == 0
  {
  }

  lemma Edges(i: nat, j: nat)
    requires i % SECTOR == 511
    ensures j / SECTOR == i / SECTOR && j % SECTOR == 511 <==> j == i
    ensures j / SECTOR == i / SECTOR + 1 && j % SECTOR == 0 <==> j == i + 1
  {
    assert j == j / SECTOR * SECTOR + j % SECTOR && i == i / SECTOR * SECTOR + 511;
  }

  lemma AcrossBytes(g: Geometry, d: Disk, s: nat, x: seq<byte>, y: seq<byte>, j: nat)
    requires DiskOk(g, d) && |x| == |y| == SECTOR && g.rsvd <= s && s + 1 < g.rsvd + g.fatSz && j < g.fatSz * SECTOR
    ensures FatByte(g, Both(g, Both(g, d, s, x), s + 1, y), j) ==
      if g.rsvd + j / SECTOR == s then x[j % SECTOR] as int
      else if g.rsvd + j / SECTOR == s + 1 then y[j % SECTOR] as int else FatByte(g, d, j)
  {
    hide Both, FatByte;
    BothBytes(g, d, s, x, j);
    BothBytes(g, Both(g, d, s, x), s + 1, y, j);
  }

  lemma BothRest(g: Geometry, d: Disk, clus: nat, s: nat, x: seq<byte>)
    requires g.Valid() && DiskOk(g, d) && |x| == SECTOR && g.rsvd <= s < g.rsvd + g.fatSz
    requires !g.Straddles(clus) && g.At(clus) % SECTOR + g.Width() <= SECTOR && s == Home(g, clus)
    ensures Rest(g, d, Both(g, d, s, x), clus)
  {
  }

  lemma BothBothRest(g: Geometry, d: Disk, clus: nat, s: nat, x: seq<byte>, y: seq<byte>)
    requires g.Valid() && DiskOk(g, d) && |x| == |y| == SECTOR && g.rsvd <= s && s + 1 < g.rsvd + g.fatSz
    requires g.Straddles(clus) && s == Home(g, clus)
    ensures Rest(g, d, Both(g, Both(g, d, s, x), s + 1, y), clus)
  {
  }

  /** Under `WriteRight` the write puts the entry, and nothing else changes. */
  lemma AfterPut(g: Geometry, d: Disk, clus: nat, v: nat)
    requires g.Valid() && DiskOk(g, d) && clus < g.Count() && CanWrite(g, d, clus) && v < TWO32 && WriteRight(g, clus, v)
    ensures Put(g, d, After(g, d, clus, v), clus, v) && Rest(g, d, After(g, d, clus, v), clus)
  {
    hide Put, Rest, Both, Geometry.At, Geometry.Straddles, Geometry.Count, Offset, WithEntry, Or;
    Places(g, clus);
    EntryInSector(g, clus);
    var s := Home(g, clus);
    if !g.Straddles(clus) {
      var x := WithEntry(g, d[s], clus, v);
      EntryPut(g, d[s], clus, v);
      PutInside(g, d, clus, v, x);
      BothRest(g, d, clus, s, x);
    } else if clus % 2 == 1 {
      AfterOdd(g, d, clus, v);
      var x, y := d[s][511 := (d[s][511] as int % 16) as byte], d[s + 1][0 := (v / 16 % 256) as byte];
      OddPacked(d[s][511] as int, d[s + 1][0] as int, v);
      PutAcross(g, d, clus, v, x, y);
      BothBothRest(g, d, clus, s, x, y);
    } else {
      AfterEven(g, d, clus, v);
      var x, y := d[s][511 := (v % 256) as byte], d[s + 1][0 := (d[s + 1][0] as int / 16 * 16 + v / 256 % 16) as byte];
      EvenPacked(d[s][511] as int, d[s + 1][0] as int, v);
      PutAcross(g, d, clus, v, x, y);
      BothBothRest(g, d, clus, s, x, y);
    }
  }

  lemma EntryPut(g: Geometry, x: seq<byte>, clus: nat, v: nat)
    requires g.Valid() && !g.Straddles(clus) && |x| == SECTOR && v < TWO32
    ensures var o, y := Offset(g, clus), WithEntry(g, x, clus, v);
      && (forall j :: 0 <= j < SECTOR && !(o <= j < o + g.Width()) ==> y[j] == x[j])
      && (if g.ft == 32 then WordIn(y, o) + 65536 * WordIn(y, o + 2) == v
          else WordIn(y, o) == Packed(g.ft, clus % 2 == 1, WordIn(x, o), v))
  {
    hide Packed, Offset;
  }

  /** The odd straddling write where it is right. */
  lemma AfterOdd(g: Geometry, d: Disk, clus: nat, v: nat)
    requires g.Valid() && DiskOk(g, d) && CanWrite(g, d, clus) && v < TWO32
    requires g.Straddles(clus) && clus % 2 == 1 && g.rsvd == 1 && g.fatSz == 9 && v % 16 == 0
    ensures var s := Home(g, clus);
      After(g, d, clus, v) == Both(g, Both(g, d, s, d[s][511 := (d[s][511] as int % 16) as byte]), s + 1,
          d[s + 1][0 := (v / 16 % 256) as byte])
  {
  }

  lemma AfterEven(g: Geometry, d: Disk, clus: nat, v: nat)
    requires g.Valid() && DiskOk(g, d) && CanWrite(g, d, clus) && v < TWO32
    requires g.Straddles(clus) && clus % 2 == 0 && v / 4096 % 16 == 0 && g.fatSz > 1
    ensures var s := Home(g, clus);
      After(g, d, clus, v) == Both(g, Both(g, d, s, d[s][511 := (v % 256) as byte]), s + 1,
                                   d[s + 1][0 := (d[s + 1][0] as int / 16 * 16 + v / 256 % 16) as byte])
  {
    hide Or;
    var s := Home(g, clus);
    OrNibble(d[s + 1][0] as int, v / 256);
    assert v / 256 / 16 % 16 == 0;
  }

  /** The high nibble of a byte and the low one of another value. */
  lemma OrNibble(b: nat, w: nat)
    requires b < 256 && w / 16 % 16 == 0
    ensures Or(b / 16 * 16, w) % 256 == b / 16 * 16 + w % 16
  {
    hide Or;
    OrLow(b / 16, w);
    OrDisjoint(b / 16, w / 16);
  }

  lemma OrLow(a: nat, w: nat)
    ensures Or(a * 16, w) == w % 16 + 16 * Or(a, w / 16)
  {
    hide Or;
    OrLeft(8 * a, w); OrLeft(4 * a, w / 2); OrLeft(2 * a, w / 4); OrLeft(a, w / 8);
    Sixteenths(w);
  }

  lemma Sixteenths(w: nat)
    ensures w / 2 / 2 == w / 4 && w / 4 / 2 == w / 8 && w / 8 / 2 == w / 16
    ensures w % 16 == w % 2 + 2 * (w / 2 % 2) + 4 * (w / 4 % 2) + 8 * (w / 8 % 2)
  {
  }

  lemma OrLeft(a: nat, b: nat)
    ensures Or(2 * a, b) == b % 2 + 2 * Or(a, b / 2)
  {
  }

  lemma OrRight(a: nat, b: nat)
    ensures Or(a, 2 * b) == a % 2 + 2 * Or(a / 2, b)
  {
  }

  lemma OrDisjoint(a: nat, u: nat)
    requires a < 16 && u % 16 == 0
    ensures Or(a, u) % 16 == a
  {
    hide Or;
    var k := u / 16;
    OrHigh(a, k);
    OrZero(k);
    Split16(a + 16 * k, a, k);
  }

  lemma OrZero(k: nat)
    ensures Or(0, k) == k
  {
  }

  lemma OrHigh(a: nat, k: nat)
    ensures Or(a, k * 16) == a % 16 + 16 * Or(a / 16, k)
  {
    hide Or;
    OrRight(a, 8 * k); OrRight(a / 2, 4 * k); OrRight(a / 4, 2 * k); OrRight(a / 8, k);
    Sixteenths(a);
  }

  lemma OddPacked(b: nat, c: nat, v: nat)
    requires b < 256 && c < 256 && v % 16 == 0
    ensures b % 16 + 256 * (v / 16 % 256) == Packed(12, true, b + 256 * c, v)
  {
    LowNibble(b, c);
    assert v % 4096 == v / 16 % 256 * 16;
  }

  lemma EvenPacked(b: nat, c: nat, v: nat)
    requires b < 256 && c < 256
    ensures v % 256 + 256 * (c / 16 * 16 + v / 256 % 16) == Packed(12, false, b + 256 * c, v)
  {
    assert (b + 256 * c) / 4096 == c / 16;
    assert v % 4096 == v % 256 + 256 * (v / 256 % 16);
  }

  /** The number as far as an entry holds it. */
  function Low(g: Geometry, v: nat): nat {
    if g.ft == 32 then v else if g.ft == 16 then v % 65536 else v % 4096
  }

  lemma AfterTable(g: Geometry, d: Disk, clus: nat, v: nat)
    requires g.Valid() && DiskOk(g, d) && clus < g.Count() && CanWrite(g, d, clus) && v < TWO32 && WriteRight(g, clus, v)
    ensures Table(g, After(g, d, clus, v)) == Table(g, d)[clus := Low(g, v)] && Rest(g, d, After(g, d, clus, v), clus)
  {
    hide Table, After, Rest, Packed, Entry;
    AfterPut(g, d, clus, v);
    PutLow(g, d, After(g, d, clus, v), clus, v);
    PutTable(g, d, After(g, d, clus, v), clus, Low(g, v));
  }

  lemma PutLow(g: Geometry, d: Disk, d': Disk, clus: nat, v: nat)
    requires g.Valid() && DiskOk(g, d) && DiskOk(g, d') && clus < g.Count() && v < TWO32 && Put(g, d, d', clus, v)
    ensures Put(g, d, d', clus, Low(g, v))
  {
    hide FatByte, Packed, Geometry.At;
    InTable(g, clus);
    var i := g.At(clus);
    if g.ft != 32 { PackedLow(g, clus % 2 == 1, FatByte(g, d, i) + 256 * FatByte(g, d, i + 1), v); }
  }

  lemma PackedLow(g: Geometry, odd: bool, t: int, v: nat)
    requires g.ft == 12 || g.ft == 16
    ensures Packed(g.ft, odd, t, Low(g, v)) == Packed(g.ft, odd, t, v)
  {
  }

  /** Exactly those writes: for any other one some table or its copy comes out wrong. */
  lemma AfterWrong(g: Geometry, clus: nat, v: nat) returns (d: Disk)
    requires g.Valid() && g.Holds(clus) && v < TWO32 && !WriteRight(g, clus, v)
    ensures DiskOk(g, d) && OnDisk(g, d, clus)
    ensures !Put(g, d, After(g, d, clus, v), clus, v) || !Rest(g, d, After(g, d, clus, v), clus)
  {
    var s, n := Home(g, clus), g.rsvd + 2 * g.fatSz + 10;
    EntryInSector(g, clus);
    var fixed := g.rsvd == 1 || g.rsvd == 10;
    var spot := if clus % 2 == 0 || v % 16 != 0 then n else if fixed then s + g.fatSz else s;
    d := Spotted(n, spot);
    HeldOnDisk(g, d, clus);
    if clus % 2 == 0 {
      WrongEven(g, d, clus, v);
    } else if v % 16 == 0 && fixed {
      WrongCopy(g, d, clus, v);
    } else {
      WrongOdd(g, d, clus, v);
    }
  }

  /** What the first half of the entry must be. */
  lemma FirstHalf(g: Geometry, d: Disk, d': Disk, clus: nat, v: nat)
    requires g.Valid() && DiskOk(g, d) && DiskOk(g, d') && g.Holds(clus) && g.Straddles(clus) && Put(g, d, d', clus, v)
    ensures var s := Home(g, clus);
      && s + 1 < |d| && s + 1 < |d'|
      && d'[s][511] as int + 256 * d'[s + 1][0] as int == Packed(12, clus % 2 == 1, d[s][511] as int + 256 * d[s + 1][0] as int, v)
  {
    hide Packed;
    InTable(g, clus);
    EntryInSector(g, clus);
    var i := g.At(clus);
    assert (i + 1) / SECTOR == i / SECTOR + 1 && (i + 1) % SECTOR == 0;
  }

  lemma WrongEven(g: Geometry, d: Disk, clus: nat, v: nat)
    requires g.Valid() && DiskOk(g, d) && g.Holds(clus) && g.Straddles(clus) && OnDisk(g, d, clus) && v < TWO32
    requires clus % 2 == 0 && v / 4096 % 16 != 0 && d == Spotted(|d|, |d|)
    ensures !Put(g, d, After(g, d, clus, v), clus, v)
  {
    hide Put;
    EntryInSector(g, clus);
    var d', s := After(g, d, clus, v), Home(g, clus);
    assert d'[s][511] as int == v % 256 && d'[s + 1][0] as int == v / 256 % 256;
    HighBits(v);
    if Put(g, d, d', clus, v) {
      FirstHalf(g, d, d', clus, v);
      assert false;
    }
  }

  lemma HighBits(v: nat)
    requires v / 4096 % 16 != 0
    ensures v % 256 + 256 * (v / 256 % 256) != v % 4096
  {
    assert v % 65536 == v % 4096 + 4096 * (v / 4096 % 16);
  }

  lemma WrongCopy(g: Geometry, d: Disk, clus: nat, v: nat)
    requires g.Valid() && DiskOk(g, d) && g.Holds(clus) && g.Straddles(clus) && OnDisk(g, d, clus) && v < TWO32
    requires clus % 2 == 1 && v % 16 == 0 && (g.rsvd == 1 || g.rsvd == 10) && !(g.rsvd == 1 && g.fatSz == 9)
    requires d == Spotted(|d|, Home(g, clus) + g.fatSz)
    ensures !Rest(g, d, After(g, d, clus, v), clus)
  {
    EntryInSector(g, clus);
    var d', s := After(g, d, clus, v), Home(g, clus);
    assert d'[s + g.fatSz][100] == 17 && d'[s][100] == 0;
    assert Touched(g, clus, s);
  }

  lemma WrongOdd(g: Geometry, d: Disk, clus: nat, v: nat)
    requires g.Valid() && DiskOk(g, d) && g.Holds(clus) && g.Straddles(clus) && OnDisk(g, d, clus) && v < TWO32
    requires clus % 2 == 1 && (v % 16 == 0 ==> g.rsvd != 1 && g.rsvd != 10)
    requires d == Spotted(|d|, if v % 16 == 0 then Home(g, clus) else |d|)
    ensures !Put(g, d, After(g, d, clus, v), clus, v)
  {
    hide Put;
    EntryInSector(g, clus);
    var d', s := After(g, d, clus, v), Home(g, clus);
    assert d'[s][511] as int == if v % 16 == 0 then 17 else if g.rsvd == 1 || g.rsvd == 10 then v % 16 else 0;
    OddMod(d'[s][511] as int, d'[s + 1][0] as int, d[s][511] as int, d[s + 1][0] as int, v);
    if Put(g, d, d', clus, v) {
      FirstHalf(g, d, d', clus, v);
      assert false;
    }
  }

  lemma OddMod(a: nat, b: nat, a0: nat, b0: nat, v: nat)
    requires a < 256 && b < 256 && a0 < 256
    ensures a + 256 * b == Packed(12, true, a0 + 256 * b0, v) ==> a == a0 % 16 + v % 16 * 16
  {
    LowNibble(a0, b0);
    assert v % 4096 * 16 == v % 16 * 16 + 256 * (v / 16 % 256);
  }

  /** `writenextclus` then `getnextclus`: the value comes back, and every other cluster
      reads as before. `AfterWrong` and `SeenWrong` are the converse. */
  lemma WriteThenRead(g: Geometry, d: Disk, clus: nat, v: nat, e: nat)
    requires g.Valid() && DiskOk(g, d) && g.Holds(clus) && CanWrite(g, d, clus) && v < TWO32 && WriteRight(g, clus, v)
    requires g.Holds(e) && ReadsRight(g, e)
    ensures CanRead(g, d, e) && CanRead(g, After(g, d, clus, v), e)
    ensures Seen(g, After(g, d, clus, v), e) == if e == clus then Low(g, v) else Seen(g, d, e)
  {
    hide After, Entry, Seen;
    var d' := After(g, d, clus, v);
    AfterTable(g, d, clus, v);
    SeenIsEntry(g, d, e);
    SeenIsEntry(g, d', e);
    assert Table(g, d')[e] == Entry(g, d', e) && Table(g, d)[e] == Entry(g, d, e);
  }
}
