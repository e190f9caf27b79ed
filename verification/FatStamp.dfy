/** The time stamps of a FAT32 directory entry, as opening and closing a file read and
    write them. */
module FatStamp {
  import opened Basics
  import opened Calendar

  /** Bit fields of 7, 4, 5, 5, 6 and 5 bits. */
  datatype Stamp = Stamp(year: int, mon: int, day: int, hour: int, min: int, sec2: int) {
    predicate Fields() {
      && 0 <= year < 128 && 0 <= mon < 16 && 0 <= day < 32
      && 0 <= hour < 32 && 0 <= min < 64 && 0 <= sec2 < 32
    }

    function Date(): Date {
      D(year + 1980, mon, day, hour, min, sec2 * 2)
    }

    /** The stamp is a date, and one whose time fits 32 bits. */
    predicate Good() {
      Date().Valid() && Date().Seconds() < 0x8000_0000
    }
  }

  function Raw(s: Stamp): int
    requires s.Fields()
  {
    MktimeSum(s.year + 1980, s.mon, s.day, s.hour, s.min, s.sec2 * 2)
  }

  function OpenTime(s: Stamp): (t: int)
    requires s.Fields()
    ensures InLong(t)
  {
    KernelMktime(s.year + 1980, s.mon, s.day, s.hour, s.min, s.sec2 * 2)
  }

  /** What `Fat_close` stores, cut to the width of the fields. */
  function Fields(tm: Tm): Stamp {
    Stamp((tm.year - 80) % 128, (tm.mon + 1) % 16, tm.mday % 32, tm.hour % 32, tm.min % 64, CDiv(tm.sec, 2) % 32)
  }

  /** How far the sum reaches for any fields at all. */
  lemma RawRange(s: Stamp)
    requires s.Fields()
    ensures Raw(s) % 60 == s.sec2 * 2 % 60 && 0 <= Raw(s) < 2 * TWO32 - 0x8000_0000
    ensures s.year >= 118 ==> Raw(s) >= 0x8000_0000
  {
    hide U32, S32;
    Unsigned(s.year + 1979);
    AnyMonth(s.mon);
    InMinute(s);
  }

  lemma InMinute(s: Stamp)
    requires s.Fields()
    ensures Raw(s) % 60 == s.sec2 * 2 % 60
  {
    var m := U32(s.mon - 2);
    var m' := if S32(m) <= 0 then U32(m + 12) else m;
    var y' := if S32(m) <= 0 then U32(s.year + 1980 - 1) else s.year + 1980;
    var minutes := ((y' / 4 - y' / 100 + y' / 400 + U32(367 * m') / 12 + s.day + y' * 365 - 719499) * 24 + s.hour) * 60 + s.min;
    assert Raw(s) == minutes * 60 + s.sec2 * 2;
    LastMinute(minutes, s.sec2 * 2);
  }

  lemma LastMinute(x: int, s: int)
    ensures (x * 60 + s) % 60 == s % 60
  {
  }

  lemma AnyMonth(mon: nat)
    requires mon < 16
    ensures var m := U32(mon - 2);
      if mon <= 2 then S32(m) <= 0 && 300 <= U32(367 * U32(m + 12)) / 12 <= 367 else S32(m) > 0 && 30 <= U32(367 * m) / 12 <= 400
  {
    assert mon == 0 || mon == 1 || mon == 2 || mon > 2;
  }

  /** A wrapped time is off by 16 seconds of the minute, which the stamp shows. */
  lemma WrapShows(s: Stamp, d: Date, r: Stamp)
    requires s.Fields() && d.Valid() && d.Seconds() == OpenTime(s) && r.sec2 == d.sec / 2 && r.sec2 == s.sec2
    ensures Raw(s) < 0x8000_0000
  {
    hide MktimeSum, DaysBeforeYear, DaysBeforeMonth, U32, S32;
    RawRange(s);
    Wrapped(Raw(s));
    OffBy16((d.Day() * 24 + d.hour) * 60 + d.min, d.sec, s.sec2, Raw(s));
  }

  lemma Wrapped(raw: int)
    requires 0 <= raw < 2 * TWO32 - 0x8000_0000
    ensures S32(raw) == if raw < 0x8000_0000 then raw else raw - TWO32
  {
  }

  lemma OffBy16(x: int, sec: int, sec2: int, raw: int)
    requires 0 <= sec < 60 && sec2 == sec / 2 && raw % 60 == sec2 * 2 % 60
    ensures x * 60 + sec != raw - TWO32
  {
    assert (x * 60 + sec) % 60 == sec;
    assert (raw - TWO32) % 60 == (raw % 60 + 44) % 60;
  }

  /** Opening a file and closing it again. The create stamp comes back exactly when it
      is a date whose time fits 32 bits. */
  method OpenClose(s: Stamp) returns (r: Stamp)
    requires s.Fields()
    ensures r.Fields() && (r == s <==> s.Good())
  {
    hide MktimeSum, DaysBeforeYear, DaysBeforeMonth;
    var tm := TimeToTm(OpenTime(s));
    r := Fields(tm);
    var d := tm.Date();
    FieldsAre(tm);
    if s.Good() {
      GoodTime(s);
      assert d == s.Date();
    }
    if r == s {
      WrapShows(s, d, r);
      RawRange(s);
      SameDate(s, d, r);
    }
  }

  lemma FieldsAre(tm: Tm)
    requires tm.Date().Valid() && 1901 <= tm.Date().year <= 2038
    ensures Fields(tm).Fields() && CDiv(tm.sec, 2) == tm.sec / 2
    ensures var d := tm.Date(); Fields(tm) == Stamp((d.year - 1980) % 128, d.mon, d.day, d.hour, d.min, d.sec / 2)
  {
  }

  lemma GoodTime(s: Stamp)
    requires s.Fields() && s.Good()
    ensures OpenTime(s) == s.Date().Seconds()
  {
    hide MktimeSum, DaysBeforeYear, DaysBeforeMonth;
    RawRange(s);
    MktimeIsSeconds(s.Date());
    MktimeExact(s.Date());
  }

  lemma SameDate(s: Stamp, d: Date, r: Stamp)
    requires s.Fields() && r == s && d.Valid() && 1901 <= d.year <= 2038 && d.Seconds() == OpenTime(s)
    requires r == Stamp((d.year - 1980) % 128, d.mon, d.day, d.hour, d.min, d.sec / 2)
    requires 0 <= Raw(s) < 0x8000_0000
    ensures s.Good()
  {
    hide MktimeSum, DaysBeforeYear, DaysBeforeMonth;
    KeepsLong(Raw(s));
    NotBefore(d);
    RawRange(s);
    assert s.Date() == d.(sec := s.sec2 * 2);
  }

  lemma NotBefore(d: Date)
    requires d.Valid() && 1901 <= d.year && d.Seconds() >= 0
    ensures d.year >= 1970
  {
    if d.year < 1970 { LaterYear(d.year, 1970); MonthsFit(d.year, d.mon, 13); }
  }
}
