/** lib/times.c: dates to seconds since 1970 in closed form, and back by guessing years. */
module Calendar {
  import opened Basics

  // ---- the calendar itself

  predicate IsLeap(y: int) {
    y % 4 == 0 && (y % 100 != 0 || y % 400 == 0)
  }

  function YearLen(y: int): nat {
    if IsLeap(y) then 366 else 365
  }

  function MonthLen(y: int, m: int): nat {
    if m == 2 then (if IsLeap(y) then 29 else 28)
    else if m == 4 || m == 6 || m == 9 || m == 11 then 30 else 31
  }

  /** Days from 1 January 1970 to 1 January of year `y`, year by year. */
  function DaysBeforeYear(y: int): int
    decreases if y < 1970 then 1970 - y else y - 1970
  {
    if y == 1970 then 0
    else if y > 1970 then DaysBeforeYear(y - 1) + YearLen(y - 1)
    else DaysBeforeYear(y + 1) - YearLen(y)
  }

  /** Days of year `y` before month `m`. */
  function DaysBeforeMonth(y: int, m: nat): nat {
    if m <= 1 then 0 else DaysBeforeMonth(y, m - 1) + MonthLen(y, m - 1)
  }

  datatype Date = D(year: int, mon: int, day: int, hour: int, min: int, sec: int) {
    predicate Valid() {
      && 1 <= mon <= 12 && 1 <= day <= MonthLen(year, mon)
      && 0 <= hour < 24 && 0 <= min < 60 && 0 <= sec < 60
    }

    function Day(): int
      requires Valid()
    {
      DaysBeforeYear(year) + DaysBeforeMonth(year, mon) + day - 1
    }

    function Seconds(): int
      requires Valid()
    {
      ((Day() * 24 + hour) * 60 + min) * 60 + sec
    }

    predicate Before(d: Date) {
      year < d.year || (year == d.year && (mon < d.mon || (mon == d.mon && (day < d.day || (day == d.day &&
      (hour < d.hour || (hour == d.hour && (min < d.min || (min == d.min && sec < d.sec)))))))))
    }
  }

  // ---- 32-bit arithmetic of the compiled code

  predicate InLong(x: int) { -0x8000_0000 <= x < 0x8000_0000 }

  /** C division and remainder, which truncate toward zero. */
  function CDiv(a: int, b: int): int
    requires b > 0
  {
    if a >= 0 then a / b else -(-a / b)
  }

  function CMod(a: int, b: int): int
    requires b > 0
  {
    a - CDiv(a, b) * b
  }

  /** `math_div` is division rounding down. */
  function MathDiv(a: int, b: int): (r: int)
    requires b > 0
    ensures r * b <= a < (r + 1) * b
  {
    TruncatedRest(a, b);
    CDiv(a, b) - (if CMod(a, b) < 0 then 1 else 0)
  }

  lemma TruncatedRest(a: int, b: int)
    requires b > 0
    ensures -b < CMod(a, b) < b && (a >= 0 ==> CMod(a, b) >= 0) && (a <= 0 ==> CMod(a, b) <= 0)
    ensures a == CDiv(a, b) * b + CMod(a, b)
  {
  }

  lemma Floor(a: int, b: int)
    requires b > 0
    ensures MathDiv(a, b) == a / b
  {
    var r, q := MathDiv(a, b), a / b;
    assert q * b <= a < (q + 1) * b;
    Times(r + 1, q, b);
    Times(q + 1, r, b);
  }

  function LeapsBetween(y1: int, y2: int): int {
    (MathDiv(y2 - 1, 4) - MathDiv(y2 - 1, 100) + MathDiv(y2 - 1, 400))
    - (MathDiv(y1 - 1, 4) - MathDiv(y1 - 1, 100) + MathDiv(y1 - 1, 400))
  }

  function Leaps(y: int): int {
    (y - 1) / 4 - (y - 1) / 100 + (y - 1) / 400
  }

  lemma LeapsBetweenIs(y1: int, y2: int)
    ensures LeapsBetween(y1, y2) == Leaps(y2) - Leaps(y1)
  {
    Floor(y1 - 1, 4); Floor(y1 - 1, 100); Floor(y1 - 1, 400);
    Floor(y2 - 1, 4); Floor(y2 - 1, 100); Floor(y2 - 1, 400);
  }

  lemma LeapStep(y: int)
    ensures Leaps(y + 1) == Leaps(y) + if IsLeap(y) then 1 else 0
  {
    By4(y);
    By100(y);
    By400(y);
  }

  lemma By4(y: int)
    ensures y / 4 == (y - 1) / 4 + if y % 4 == 0 then 1 else 0
  {
  }

  lemma By100(y: int)
    ensures y / 100 == (y - 1) / 100 + if y % 100 == 0 then 1 else 0
    ensures y % 100 == 0 ==> y % 4 == 0
  {
  }

  lemma By400(y: int)
    ensures y / 400 == (y - 1) / 400 + if y % 400 == 0 then 1 else 0
    ensures y % 400 == 0 ==> y % 100 == 0
  {
  }

  /** Of `d` years in a row at most one in four is a leap year. */
  lemma FewLeaps(y: int, d: nat)
    ensures 0 <= Leaps(y + d) - Leaps(y) <= (d + 3) / 4
  {
    var a, b := y - 1, y + d - 1;
    assert a / 100 == a / 4 / 25 && b / 100 == b / 4 / 25;
    assert a / 400 == a / 4 / 25 / 4 && b / 400 == b / 4 / 25 / 4;
    Quarters(a, b);
    Slower25(a / 4, b / 4);
    Quarters(a / 4 / 25, b / 4 / 25);
  }

  lemma Quarters(a: int, b: int)
    requires a <= b
    ensures 0 <= b / 4 - a / 4 <= b - a && b / 4 - a / 4 <= (b - a + 3) / 4
  {
  }

  lemma Slower25(a: int, b: int)
    requires a <= b
    ensures 0 <= b / 25 - a / 25 <= b - a
  {
  }

  lemma {:induction false} YearsInDays(y: int)
    ensures DaysBeforeYear(y) == 365 * (y - 1970) + Leaps(y) - 477
    decreases if y < 1970 then 1970 - y else y - 1970
  {
    if y > 1970 { YearsInDays(y - 1); LeapStep(y - 1); }
    if y < 1970 { YearsInDays(y + 1); LeapStep(y); }
  }

  lemma LaterYear(y1: int, y2: int)
    requires y1 < y2
    ensures DaysBeforeYear(y1) + YearLen(y1) <= DaysBeforeYear(y2)
  {
    hide IsLeap, DaysBeforeYear, Leaps;
    YearsInDays(y1);
    YearsInDays(y2);
    LeapStep(y1);
    FewLeaps(y1 + 1, y2 - y1 - 1);
  }

  lemma MonthsFit(y: int, m1: nat, m2: nat)
    requires 1 <= m1 < m2 <= 13
    ensures DaysBeforeMonth(y, m1) + MonthLen(y, m1) <= DaysBeforeMonth(y, m2) && DaysBeforeMonth(y, 13) == YearLen(y)
    decreases m2
  {
    if m1 + 1 < m2 { MonthsFit(y, m1, m2 - 1); }
    YearByMonths(y);
  }

  /** The rows of `__mon_yday`. */
  const MON_YDAY := [0, 31, 59, 90, 120, 151, 181, 212, 243, 273, 304, 334, 365]
  const MON_YDAY_LEAP := [0, 31, 60, 91, 121, 152, 182, 213, 244, 274, 305, 335, 366]

  function MonYday(y: int): (r: seq<nat>)
    ensures |r| == 13
  {
    if IsLeap(y) then MON_YDAY_LEAP else MON_YDAY
  }

  lemma YearByMonths(y: int)
    ensures forall m :: 0 <= m < 13 ==> MonYday(y)[m] == DaysBeforeMonth(y, m + 1)
    ensures DaysBeforeMonth(y, 13) == YearLen(y)
  {
    assert DaysBeforeMonth(y, 3) == DaysBeforeMonth(y, 2) + MonthLen(y, 2);
    assert DaysBeforeMonth(y, 5) == DaysBeforeMonth(y, 3) + 61;
    assert DaysBeforeMonth(y, 7) == DaysBeforeMonth(y, 5) + 61;
    assert DaysBeforeMonth(y, 9) == DaysBeforeMonth(y, 7) + 62;
    assert DaysBeforeMonth(y, 11) == DaysBeforeMonth(y, 9) + 61;
    assert DaysBeforeMonth(y, 13) == DaysBeforeMonth(y, 11) + 61;
  }

  // ---- order

  lemma DayOrder(a: Date, b: Date)
    requires a.Valid() && b.Valid() && (a.year < b.year || (a.year == b.year && (a.mon < b.mon || (a.mon == b.mon && a.day < b.day))))
    ensures a.Day() < b.Day()
  {
    if a.year < b.year {
      LaterYear(a.year, b.year);
      MonthsFit(a.year, a.mon, 13);
    } else if a.mon < b.mon {
      MonthsFit(a.year, a.mon, b.mon);
    }
  }

  /** Later dates have more seconds. */
  lemma SecondsOrder(a: Date, b: Date)
    requires a.Valid() && b.Valid()
    ensures a.Before(b) <==> a.Seconds() < b.Seconds()
    ensures a.Seconds() == b.Seconds() ==> a == b
  {
    if a.Before(b) { SecondsUp(a, b); } else if b.Before(a) { SecondsUp(b, a); }
  }

  lemma SecondsUp(a: Date, b: Date)
    requires a.Valid() && b.Valid() && a.Before(b)
    ensures a.Seconds() < b.Seconds()
  {
    if !(a.year == b.year && a.mon == b.mon && a.day == b.day) { DayOrder(a, b); }
  }

  // ---- kernel_mktime

  /** The sum of `kernel_mktime` before the last wrap; `+`, `-` and `*` respect the wrap,
      so it is written only where a comparison or a division looks at the wrapped value. */
  function MktimeSum(year: nat, mon: nat, day: nat, hour: nat, min: nat, sec: nat): int {
    var m := U32(mon - 2);
    var early := S32(m) <= 0;
    var m' := if early then U32(m + 12) else m;
    var y' := if early then U32(year - 1) else year;
    (((y' / 4 - y' / 100 + y' / 400 + U32(367 * m') / 12 + day + y' * 365 - 719499) * 24 + hour) * 60 + min) * 60 + sec
  }

  function KernelMktime(year: nat, mon: nat, day: nat, hour: nat, min: nat, sec: nat): (t: int)
    ensures InLong(t)
  {
    S32(MktimeSum(year, mon, day, hour, min, sec))
  }

  /** The closed form is the calendar, for every date a 32-bit year can name. */
  lemma MktimeIsSeconds(d: Date)
    requires d.Valid() && 1 <= d.year < TWO32
    ensures MktimeSum(d.year, d.mon, d.day, d.hour, d.min, d.sec) == d.Seconds()
  {
    hide IsLeap, DaysBeforeYear, DaysBeforeMonth, Leaps, U32, S32;
    LeapsFrom(d.year);
    LeapsFrom(d.year - 1);
    YearsInDays(d.year);
    LeapStep(d.year);
    MonthTerm(d.year, d.mon);
    YearByMonths(d.year);
    assert DaysBeforeMonth(d.year, d.mon) == MonYday(d.year)[d.mon - 1];
    Unsigned(d.year - 1);
  }

  /** The month number as the code shifts it, in unsigned arithmetic. */
  lemma MonthIndex(mon: nat)
    requires 1 <= mon <= 12
    ensures var m := U32(mon - 2);
      if mon <= 2 then S32(m) <= 0 && U32(367 * U32(m + 12)) == 367 * (mon + 10) else S32(m) > 0 && U32(367 * m) == 367 * (mon - 2)
  {
    var m := U32(mon - 2);
    if mon <= 2 {
      assert m == if mon == 1 then TWO32 - 1 else 0;
      assert U32(m + 12) == mon + 10;
    } else {
      assert m == mon - 2;
    }
  }

  /** `367 * mon / 12` with March as month 1 grows like the days before the month. */
  lemma MonthTerm(y: int, mon: nat)
    requires 1 <= mon <= 12
    ensures var m := U32(mon - 2);
      if mon <= 2 then S32(m) <= 0 && U32(367 * U32(m + 12)) / 12 == MonYday(y)[mon - 1] + 336
      else S32(m) > 0 && U32(367 * m) / 12 == MonYday(y)[mon - 1] - (if IsLeap(y) then 30 else 29)
  {
    hide IsLeap, U32, S32;
    MonthIndex(mon);
    assert mon == 1 || mon == 2 || mon == 3 || mon == 4 || mon == 5 || mon == 6
        || mon == 7 || mon == 8 || mon == 9 || mon == 10 || mon == 11 || mon == 12;
  }

  lemma Unsigned(x: int)
    requires 0 <= x < TWO32
    ensures U32(x) == x
  {
  }

  lemma LeapsFrom(y: int)
    ensures y / 4 - y / 100 + y / 400 == Leaps(y + 1)
  {
  }

  lemma KeepsLong(x: int)
    ensures InLong(x) <==> S32(x) == x
  {
  }

  /** `kernel_mktime` counts the seconds exactly as long as they fit 32 bits. */
  lemma MktimeExact(d: Date)
    requires d.Valid() && 1 <= d.year < TWO32
    ensures KernelMktime(d.year, d.mon, d.day, d.hour, d.min, d.sec) == d.Seconds() <==> InLong(d.Seconds())
  {
    MktimeIsSeconds(d);
    KeepsLong(d.Seconds());
  }

  lemma LongYears(d: Date)
    requires d.Valid() && InLong(d.Seconds())
    ensures 1901 <= d.year <= 2038
  {
    MonthsFit(d.year, d.mon, 13);
    if d.year < 1901 { LaterYear(d.year, 1901); }
    if d.year > 2038 { LaterYear(2038, d.year); }
    YearsInDays(1901);
    YearsInDays(2038);
  }

  /** Strictly monotone in date order. */
  lemma MktimeMonotone(a: Date, b: Date)
    requires a.Valid() && b.Valid() && InLong(a.Seconds()) && InLong(b.Seconds())
    ensures a.Before(b) <==>
      LongDate(a) && LongDate(b)
      && KernelMktime(a.year, a.mon, a.day, a.hour, a.min, a.sec) < KernelMktime(b.year, b.mon, b.day, b.hour, b.min, b.sec)
  {
    LongYears(a);
    LongYears(b);
    MktimeExact(a);
    MktimeExact(b);
    SecondsOrder(a, b);
  }

  predicate LongDate(d: Date) {
    d.Valid() && d.year >= 1
  }

  // ---- time_to_tm

  datatype Tm = Tm(sec: int, min: int, hour: int, mday: int, mon: int, year: int, wday: int, yday: int) {
    function Date(): Date {
      D(year + 1900, mon + 1, mday, hour, min, sec)
    }
  }

  ghost function Far(days: int, y: int): nat {
    if 0 <= days < YearLen(y) then 0 else Abs(days) + 1
  }

  /** One correction keeps the day, comes nearer, and stays within a `long`. */
  lemma GuessStep(days: int, y: int)
    requires days < 0 || days >= YearLen(y)
    ensures var yg := y + MathDiv(days, 365);
      var d := days - ((yg - y) * 365 + LeapsBetween(y, yg));
      && d + DaysBeforeYear(yg) == days + DaysBeforeYear(y) && Far(d, yg) < Far(days, y)
      && (Abs(days) <= 0x2000_0000 ==> InLong((yg - y) * 365) && InLong(LeapsBetween(y, yg)) && InLong(d))
  {
    hide IsLeap, DaysBeforeYear, Leaps, LeapsBetween;
    var k := MathDiv(days, 365);
    var yg := y + k;
    LeapsBetweenIs(y, yg);
    YearsInDays(y);
    YearsInDays(yg);
    LeapStep(yg);
    LeapStep(y);
    if k >= 0 { FewLeaps(y, k); } else { FewLeaps(yg, -k); }
  }

  lemma Epoch()
    ensures DaysBeforeYear(1970) == 0
  {
  }

  /** The loop that corrects the year, from any number of days. */
  method YearOf(days0: int) returns (y: int, days: int)
    ensures 0 <= days < YearLen(y) && days + DaysBeforeYear(y) == days0
  {
    hide IsLeap, DaysBeforeYear, Leaps, LeapsBetween, MathDiv, InLong, YearLen, Far;
    Epoch();
    y, days := 1970, days0;
    while days < 0 || days >= YearLen(y)
      invariant days + DaysBeforeYear(y) == days0
      decreases Far(days, y)
    {
      GuessStep(days, y);
      var yg := y + MathDiv(days, 365);
      days := days - ((yg - y) * 365 + LeapsBetween(y, yg));
      y := yg;
    }
  }

  /** The loop that looks for the month, from December down. */
  method MonthOf(y: int, yday: nat) returns (mon: nat, mday: nat)
    requires yday < YearLen(y)
    ensures mon < 12 && 1 <= mday <= MonthLen(y, mon + 1) && yday == DaysBeforeMonth(y, mon + 1) + mday - 1
  {
    var ip := MonYday(y);
    YearByMonths(y);
    mon := 11;
    while yday < ip[mon]
      invariant mon < 12 && yday < ip[mon + 1]
      decreases mon
    {
      mon := mon - 1;
    }
    mday := yday - ip[mon] + 1;
    assert ip[mon + 1] == DaysBeforeMonth(y, mon + 2);
  }

  /** Days, and the time of the day. */
  method Clock(totalsecs: int) returns (days: int, hour: int, min: int, sec: int)
    requires InLong(totalsecs)
    ensures 0 <= hour < 24 && 0 <= min < 60 && 0 <= sec < 60
    ensures ((days * 24 + hour) * 60 + min) * 60 + sec == totalsecs
  {
    hide CDiv, CMod;
    days := CDiv(totalsecs, 86400);
    var rem := CMod(totalsecs, 86400);
    TruncatedRest(totalsecs, 86400);
    while rem < 0
      invariant -86400 < rem && days * 86400 + rem == totalsecs
      decreases -rem
    {
      rem := rem + 86400;
      days := days - 1;
    }
    while rem >= 86400
      invariant 0 <= rem && days * 86400 + rem == totalsecs
      decreases rem
    {
      rem := rem - 86400;
      days := days + 1;
    }
    TruncatedRest(rem, 3600);
    hour := CDiv(rem, 3600);
    rem := CMod(rem, 3600);
    TruncatedRest(rem, 60);
    min, sec := CDiv(rem, 60), CMod(rem, 60);
  }

  /** The date of any signed 32-bit time: the one date with these seconds, which
      `kernel_mktime` takes back to the time. */
  method TimeToTm(totalsecs: int) returns (tm: Tm)
    requires InLong(totalsecs)
    ensures tm.Date().Valid() && tm.Date().Seconds() == totalsecs && 1901 <= tm.Date().year <= 2038
    ensures var d := tm.Date(); KernelMktime(d.year, d.mon, d.day, d.hour, d.min, d.sec) == totalsecs
    ensures forall d: Date :: d.Valid() && d.Seconds() == totalsecs ==> d == tm.Date()
    ensures tm.wday == (tm.Date().Day() + 4) % 7 && tm.yday == tm.Date().Day() - DaysBeforeYear(tm.Date().year)
  {
    hide IsLeap, DaysBeforeYear, DaysBeforeMonth, MktimeSum, CMod, CDiv;
    var days, hour, min, sec := Clock(totalsecs);
    var wday := CMod(4 + days, 7);
    Weekday(4 + days);
    if wday < 0 { wday := wday + 7; }
    var y, yday := YearOf(days);
    var mon, mday := MonthOf(y, yday);
    tm := Tm(sec, min, hour, mday, mon, y - 1900, wday, yday);
    LongYears(tm.Date());
    MktimeExact(tm.Date());
    OnlyDate(tm.Date());
  }

  lemma Weekday(x: int)
    ensures CMod(x, 7) == if CMod(x, 7) < 0 then x % 7 - 7 else x % 7
  {
  }

  lemma OnlyDate(a: Date)
    requires a.Valid()
    ensures forall d: Date :: d.Valid() && d.Seconds() == a.Seconds() ==> d == a
  {
    forall d: Date | d.Valid() && d.Seconds() == a.Seconds()
      ensures d == a
    {
      SecondsOrder(d, a);
    }
  }
}
