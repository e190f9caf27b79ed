/** kernel/fat.c `releaseclus`: what one pass of its loop lowers. */
module FatMeasure {
  import opened FatEntries
  import opened FatTable
  import opened FatWrite

  // ---- a number that clearing an entry lowers

  const NIBBLE := 0x2_0000      // more than all bytes of a sector together
  const DIGIT := 0x20_0000

  function ByteSum(x: seq<byte>): nat {
    if x == [] then 0 else ByteSum(x[..|x| - 1]) + x[|x| - 1] as int
  }

  function Digit(x: seq<byte>): nat
    requires |x| == SECTOR
  {
    x[0] as int % 16 * NIBBLE + ByteSum(x)
  }

  /** The sectors from `lo` up to `hi` as digits of one number: an earlier sector outweighs
      all later ones, where the second copies land. */
  function Weight(d: Disk, lo: nat, hi: nat): nat
    requires lo <= hi <= |d| && forall s :: 0 <= s < |d| ==> |d[s]| == SECTOR
  {
    if hi == lo then 0 else Weight(d, lo, hi - 1) * DIGIT + Digit(d[hi - 1])
  }

  /** `x` is `y` with bits cleared in some bytes, as far as `Digit` can tell. */
  ghost predicate Below(x: seq<byte>, y: seq<byte>) {
    |x| == |y| && forall j :: 0 <= j < |x| ==> x[j] <= y[j] && x[j] as int % 16 <= y[j] as int % 16
  }

  lemma {:induction false} SumBelow(x: seq<byte>, y: seq<byte>)
    requires Below(x, y)
    ensures ByteSum(x) <= ByteSum(y) && ((exists j :: 0 <= j < |x| && x[j] < y[j]) ==> ByteSum(x) < ByteSum(y))
  {
    if |x| > 0 { SumBelow(x[..|x| - 1], y[..|y| - 1]); }
  }

  lemma {:induction false} SumSmall(x: seq<byte>)
    ensures ByteSum(x) <= 255 * |x|
  {
    if |x| > 0 { SumSmall(x[..|x| - 1]); }
  }

  lemma DigitSmall(x: seq<byte>)
    requires |x| == SECTOR
    ensures Digit(x) < DIGIT
  {
    SumSmall(x);
  }

  lemma DigitLess(x: seq<byte>, y: seq<byte>, j: nat)
    requires |x| == SECTOR && Below(x, y) && j < SECTOR && x[j] < y[j]
    ensures Digit(x) < Digit(y)
  {
    SumBelow(x, y);
  }

  /** A lower nibble at the front outweighs the rest of the sector. */
  lemma FrontLess(x: seq<byte>, y: seq<byte>)
    requires |x| == |y| == SECTOR && x[0] as int % 16 < y[0] as int % 16
    ensures Digit(x) < Digit(y)
  {
    SumSmall(x);
  }

  lemma {:induction false} WeightSame(d: Disk, d': Disk, lo: nat, hi: nat)
    requires |d| == |d'| && lo <= hi <= |d|
    requires forall s :: 0 <= s < |d| ==> |d[s]| == |d'[s]| == SECTOR
    requires forall s :: lo <= s < hi ==> d'[s] == d[s]
    ensures Weight(d', lo, hi) == Weight(d, lo, hi)
  {
    if lo < hi { WeightSame(d, d', lo, hi - 1); }
  }

  /** The first sector that differs decides. */
  lemma {:induction false} WeightLess(d: Disk, d': Disk, lo: nat, k: nat, hi: nat)
    requires |d| == |d'| && lo <= k < hi <= |d|
    requires forall s :: 0 <= s < |d| ==> |d[s]| == |d'[s]| == SECTOR
    requires (forall s :: lo <= s < k ==> d'[s] == d[s]) && Digit(d'[k]) < Digit(d[k])
    ensures Weight(d', lo, hi) < Weight(d, lo, hi)
  {
    hide Digit;
    if k == hi - 1 {
      WeightSame(d, d', lo, k);
    } else {
      WeightLess(d, d', lo, k, hi - 1);
      DigitSmall(d'[hi - 1]);
      Horner(Weight(d', lo, hi - 1), Weight(d, lo, hi - 1), Digit(d'[hi - 1]), Digit(d[hi - 1]));
    }
  }

  lemma Horner(a: nat, b: nat, x: nat, y: nat)
    requires a < b && x < DIGIT
    ensures a * DIGIT + x < b * DIGIT + y
  {
  }

  // ---- one pass

  lemma ClearedWord(ft: nat, odd: bool, x: seq<byte>, o: nat)
    requires (ft == 12 || ft == 16) && o + 1 < |x|
    requires (if ft == 16 then WordIn(x, o) else if odd then WordIn(x, o) / 16 else WordIn(x, o) % 4096) != 0
    ensures 0 <= Packed(ft, odd, WordIn(x, o), 0) < 65536
    ensures var y := WithWord(x, o, Packed(ft, odd, WordIn(x, o), 0)); Below(y, x) && (y[o] < x[o] || y[o + 1] < x[o + 1])
  {
    var a, b := x[o] as int, x[o + 1] as int;
    ClearedBytes(ft, odd, a, b);
  }

  lemma ClearedBytes(ft: nat, odd: bool, a: int, b: int)
    requires 0 <= a < 256 && 0 <= b < 256 && (ft == 12 || ft == 16)
    requires (if ft == 16 then a + 256 * b else if odd then (a + 256 * b) / 16 else (a + 256 * b) % 4096) != 0
    ensures var w := Packed(ft, odd, a + 256 * b, 0);
      && 0 <= w < 65536 && w % 256 <= a && w / 256 <= b && w % 256 % 16 <= a % 16 && w / 256 % 16 <= b % 16
      && (w % 256 < a || w / 256 < b)
  {
    if ft == 12 {
      if odd {
        LowNibble(a, b);
      } else {
        assert (a + 256 * b) / 4096 == b / 16;
      }
    }
  }

  /** An entry inside a sector that is not 0. */
  lemma RegularLowers(g: Geometry, d: Disk, c: nat, hi: nat)
    requires g.Valid() && DiskOk(g, d) && OnDisk(g, d, c) && !g.Straddles(c) && ReadsRight(g, c)
    requires Seen(g, d, c) != 0 && Home(g, c) < hi <= |d|
    ensures Weight(After(g, d, c, 0), g.rsvd, hi) < Weight(d, g.rsvd, hi)
  {
    hide Weight, WithWord, Packed, Digit, Below, Offset, ReadAt, Geometry.Straddles;
    ReadsHome(g, c);
    var s, o := Home(g, c), Offset(g, c);
    var x := d[s];
    if g.ft == 32 {
      ClearedDouble(x, o);
    } else {
      Places(g, c);
      ClearedWord(g.ft, c % 2 == 1, x, o);
    }
    var y := WithEntry(g, x, c, 0);
    assert Below(y, x);
    var j :| 0 <= j < SECTOR && y[j] < x[j];
    DigitLess(y, x, j);
    WeightLess(d, After(g, d, c, 0), g.rsvd, s, hi);
  }

  lemma ClearedDouble(x: seq<byte>, o: nat)
    requires o + 3 < |x| && WordIn(x, o) + 65536 * WordIn(x, o + 2) != 0
    ensures var y := WithWord(WithWord(x, o, 0), o + 2, 0);
      Below(y, x) && exists j :: 0 <= j < |x| && y[j] < x[j]
  {
    var y := WithWord(WithWord(x, o, 0), o + 2, 0);
    assert y[o] == 0 && y[o + 1] == 0 && y[o + 2] == 0 && y[o + 3] == 0;
    var j := if x[o] != 0 then o else if x[o + 1] != 0 then o + 1 else if x[o + 2] != 0 then o + 2 else o + 3;
    assert y[j] < x[j];
  }

  /** An even one across two sectors of which bits are left to clear. */
  lemma EvenLowers(g: Geometry, d: Disk, c: nat, hi: nat)
    requires g.Valid() && DiskOk(g, d) && CanWrite(g, d, c) && g.Straddles(c) && c % 2 == 0 && Home(g, c) + 1 < hi <= |d|
    requires d[Home(g, c)][511] != 0 || d[Home(g, c) + 1][0] as int % 16 != 0
    ensures Weight(After(g, d, c, 0), g.rsvd, hi) < Weight(d, g.rsvd, hi)
  {
    hide Weight, Digit, Geometry.Straddles, Geometry.At;
    var s, d' := Home(g, c), After(g, d, c, 0);
    OrZero(0);
    if d[s][511] != 0 {
      var x := d[s][511 := 0];
      assert d'[s] == x;
      DigitLess(x, d[s], 511);
      WeightLess(d, d', g.rsvd, s, hi);
    } else {
      assert d[s][511 := 0] == d[s];
      assert d'[s] == d[s];
      assert d'[s + 1][0] as int % 16 == 0;
      FrontLess(d'[s + 1], d[s + 1]);
      WeightLess(d, d', g.rsvd, s + 1, hi);
    }
  }

  /** If none are left, the table stays as it is. */
  lemma EvenSame(g: Geometry, d: Disk, c: nat, hi: nat)
    requires g.Valid() && DiskOk(g, d) && CanWrite(g, d, c) && g.Straddles(c) && c % 2 == 0 && g.fatSz > 1
    requires d[Home(g, c)][511] == 0 && d[Home(g, c) + 1][0] as int % 16 == 0 && g.rsvd <= hi <= Home(g, c) + g.fatSz && hi <= |d|
    ensures Weight(After(g, d, c, 0), g.rsvd, hi) == Weight(d, g.rsvd, hi)
  {
    hide Weight, Geometry.Straddles, Geometry.At;
    var s, d' := Home(g, c), After(g, d, c, 0);
    assert d[s][511 := 0] == d[s];
    assert d[s + 1][0 := (d[s + 1][0] as int / 16 * 16) as byte] == d[s + 1];
    WeightSame(d, d', g.rsvd, hi);
  }

  /** An odd one, where its first half is written at home. */
  predicate OddAtHome(g: Geometry, c: nat)
    requires g.Valid()
  {
    g.rsvd == 1 || (g.rsvd == 10 && g.At(c) / SECTOR < 9)
  }

  lemma OddLowers(g: Geometry, d: Disk, c: nat, hi: nat)
    requires g.Valid() && DiskOk(g, d) && CanWrite(g, d, c) && g.Straddles(c) && c % 2 == 1 && OddAtHome(g, c)
    requires Home(g, c) + 1 < hi <= |d|
    requires d[Home(g, c)][511] as int / 16 != 0 || d[Home(g, c) + 1][0] != 0
    ensures Weight(After(g, d, c, 0), g.rsvd, hi) < Weight(d, g.rsvd, hi)
  {
    hide Weight, Digit, Geometry.Straddles, Geometry.At;
    var s, d' := Home(g, c), After(g, d, c, 0);
    var b := d[s][511] as int;
    var x := d[s][511 := (b % 16) as byte];
    if b / 16 != 0 {
      assert d'[s] == x;
      DigitLess(x, d[s], 511);
      WeightLess(d, d', g.rsvd, s, hi);
    } else {
      assert x == d[s];
      assert d'[s] == d[s] && d'[s + 1] == d[s + 1][0 := 0];
      DigitLess(d'[s + 1], d[s + 1], 0);
      WeightLess(d, d', g.rsvd, s + 1, hi);
    }
  }

  lemma OddSame(g: Geometry, d: Disk, c: nat, hi: nat)
    requires g.Valid() && DiskOk(g, d) && CanWrite(g, d, c) && g.Straddles(c) && c % 2 == 1 && OddAtHome(g, c) && g.rsvd == 10
    requires d[Home(g, c)][511] as int / 16 == 0 && d[Home(g, c) + 1][0] == 0 && g.rsvd <= hi <= Home(g, c) + g.fatSz && hi <= |d|
    ensures Weight(After(g, d, c, 0), g.rsvd, hi) == Weight(d, g.rsvd, hi)
  {
    hide Weight, Geometry.Straddles, Geometry.At;
    var s, d' := Home(g, c), After(g, d, c, 0);
    assert d[s][511 := (d[s][511] as int % 16) as byte] == d[s];
    assert d[s + 1][0 := 0] == d[s + 1];
    WeightSame(d, d', g.rsvd, hi);
  }
}
