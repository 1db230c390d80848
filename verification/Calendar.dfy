/** Seconds to calendar date and back (lib/time/tv2tm.c, lib/time/tm2tv.c),
    against the proleptic Gregorian calendar.  `time_t` is 64 bits wide and
    not at issue; values kept in `int` are, and an `int` sum that does not fit
    wraps around. */
module Calendar {

  const SECS_PER_DAY := 86400
  const LEAPOCH := 946684800 + 86400 * (31 + 29)
  const DAYS_PER_400Y := 365 * 400 + 97
  const DAYS_PER_100Y := 365 * 100 + 24
  const DAYS_PER_4Y := 365 * 4 + 1

  /** struct tm: `year` counts from 1900, `mon` from 0, `mday` from 1. */
  datatype Tm = Tm(year: int, mon: int, mday: int, hour: int, min: int, sec: int, wday: int, yday: int)

  predicate FitsInt(x: int) {
    -0x8000_0000 <= x < 0x8000_0000
  }

  function Wrapped(x: int): int {
    (x + 0x8000_0000) % 0x1_0000_0000 - 0x8000_0000
  }

  /** Division of C, rounding towards zero. */
  function Quo(a: int, b: int): int
    requires b > 0
  {
    if a >= 0 then a / b else -((-a) / b)
  }

  function Rem(a: int, b: int): int
    requires b > 0
  {
    a - b * Quo(a, b)
  }

  // ---------------------------------------------- the calendar, by definition

  predicate IsLeap(y: int) {
    y % 4 == 0 && (y % 100 != 0 || y % 400 == 0)
  }

  function MonthDays(y: int, m: int): int
    requires 0 <= m < 12
  {
    if m == 1 then (if IsLeap(y) then 29 else 28)
    else if m == 3 || m == 5 || m == 8 || m == 10 then 30
    else 31
  }

  function DaysBeforeMonth(y: int, m: int): int
    requires 0 <= m <= 12
  {
    if m == 0 then 0 else DaysBeforeMonth(y, m - 1) + MonthDays(y, m - 1)
  }

  /** Leap years up to and including year `y`, counted from year 0 exclusive. */
  function Leaps(y: int): int {
    y / 4 - y / 100 + y / 400
  }

  /** Days from 1970-01-01 to the first of January of year `y`. */
  function DaysBeforeYear(y: int): int {
    (y - 1970) * 365 + Leaps(y - 1) - Leaps(1969)
  }

  /** That closed form is the sum of the lengths of the years. */
  lemma YearLength(y: int)
    ensures DaysBeforeYear(1970) == 0
    ensures DaysBeforeYear(y + 1) - DaysBeforeYear(y) == DaysBeforeMonth(y, 12)
    ensures DaysBeforeMonth(y, 12) == if IsLeap(y) then 366 else 365
  {
    LeapStep(y);
    MonthTable(y);
  }

  lemma LeapStep(y: int)
    ensures Leaps(y) - Leaps(y - 1) == if IsLeap(y) then 1 else 0
  {
    CarryOver(y, 4);
    CarryOver(y, 100);
    CarryOver(y, 400);
  }

  lemma CarryOver(y: int, k: int)
    requires k == 4 || k == 100 || k == 400
    ensures y / k - (y - 1) / k == if y % k == 0 then 1 else 0
  {
  }

  lemma MonthTable(y: int)
    ensures DaysBeforeMonth(y, 0) == 0 && DaysBeforeMonth(y, 1) == 31
    ensures var l := if IsLeap(y) then 1 else 0;
      && DaysBeforeMonth(y, 2) == 59 + l && DaysBeforeMonth(y, 3) == 90 + l && DaysBeforeMonth(y, 4) == 120 + l
      && DaysBeforeMonth(y, 5) == 151 + l && DaysBeforeMonth(y, 6) == 181 + l && DaysBeforeMonth(y, 7) == 212 + l
      && DaysBeforeMonth(y, 8) == 243 + l && DaysBeforeMonth(y, 9) == 273 + l && DaysBeforeMonth(y, 10) == 304 + l
      && DaysBeforeMonth(y, 11) == 334 + l && DaysBeforeMonth(y, 12) == 365 + l
  {
    hide IsLeap;
  }

  predicate ValidDate(y: int, m: int, d: int) {
    0 <= m < 12 && 1 <= d <= MonthDays(y, m)
  }

  function DayNumber(y: int, m: int, d: int): int
    requires 0 <= m < 12
  {
    DaysBeforeYear(y) + DaysBeforeMonth(y, m) + d - 1
  }

  ghost predicate Valid(tm: Tm) {
    ValidDate(tm.year + 1900, tm.mon, tm.mday) && 0 <= tm.hour < 24 && 0 <= tm.min < 60 && 0 <= tm.sec < 60
  }

  function Seconds(tm: Tm): int
    requires 0 <= tm.mon < 12
  {
    ((DayNumber(tm.year + 1900, tm.mon, tm.mday) * 24 + tm.hour) * 60 + tm.min) * 60 + tm.sec
  }

  /** The day of the year agrees with the date. */
  ghost predicate YearDay(tm: Tm)
    requires 0 <= tm.mon < 12
  {
    tm.yday == DaysBeforeMonth(tm.year + 1900, tm.mon) + tm.mday - 1
  }

  /** The day of the week agrees with the date: Thursday was the first day. */
  ghost predicate WeekDay(tm: Tm)
    requires 0 <= tm.mon < 12
  {
    tm.wday == (DayNumber(tm.year + 1900, tm.mon, tm.mday) + 4) % 7
  }

  /** The calendar agrees with known dates: the second day, a leap day in a
      year divisible by 400, the day after the last of February 1900, and two
      round numbers of seconds. */
  lemma KnownDates()
    ensures Dated(Tm(70, 0, 2, 3, 4, 5, 5, 1), 97445)
    ensures Dated(Tm(100, 1, 29, 12, 34, 56, 2, 59), 951827696)
    ensures Dated(Tm(0, 2, 1, 0, 0, 0, 4, 59), -2203891200)
    ensures Dated(Tm(101, 8, 9, 1, 46, 40, 0, 251), 1000000000)
    ensures Dated(Tm(138, 0, 19, 3, 14, 8, 2, 18), 2147483648)
  {
    hide Dated;
    KnownDate1();
    KnownDate2();
    KnownDate3();
    KnownDate4();
    KnownDate5();
  }

  lemma KnownDate1()
    ensures Dated(Tm(70, 0, 2, 3, 4, 5, 5, 1), 97445)
  {
    hide DaysBeforeMonth;
    MonthTable(1970);
  }

  lemma KnownDate2()
    ensures Dated(Tm(100, 1, 29, 12, 34, 56, 2, 59), 951827696)
  {
    hide DaysBeforeMonth;
    MonthTable(2000);
  }

  lemma KnownDate3()
    ensures Dated(Tm(0, 2, 1, 0, 0, 0, 4, 59), -2203891200)
  {
    hide DaysBeforeMonth;
    MonthTable(1900);
  }

  lemma KnownDate4()
    ensures Dated(Tm(101, 8, 9, 1, 46, 40, 0, 251), 1000000000)
  {
    hide DaysBeforeMonth;
    MonthTable(2001);
  }

  lemma KnownDate5()
    ensures Dated(Tm(138, 0, 19, 3, 14, 8, 2, 18), 2147483648)
  {
    hide DaysBeforeMonth;
    MonthTable(2038);
  }

  ghost predicate Dated(tm: Tm, sec: int) {
    Valid(tm) && Seconds(tm) == sec && YearDay(tm) && WeekDay(tm)
  }

  // ------------------------------------------------------------- March years

  /** Days from 1970-01-01 to the first of March of year `y`. */
  function MarchFirst(y: int): int {
    (y - 1970) * 365 + 59 + Leaps(y) - Leaps(1969)
  }

  lemma MarchYear(y: int)
    ensures MarchFirst(y) == DaysBeforeYear(y) + DaysBeforeMonth(y, 2)
    ensures DaysBeforeYear(y + 1) == MarchFirst(y) + 306
  {
    LeapStep(y);
    MonthTable(y);
  }

  /** Lengths of the months from March on, with the longest February. */
  const MDAYS: seq<int> := [31, 30, 31, 30, 31, 31, 30, 31, 30, 31, 31, 29]

  function MarchDays(m: int): int
    requires 0 <= m <= 12
  {
    if m == 0 then 0 else MarchDays(m - 1) + MDAYS[m - 1]
  }

  /** Day `d` of the year that starts in March `y`, by month and day. */
  lemma MarchToJanuary(y: int, m: int, r: int)
    requires 0 <= m < 12 && 0 <= r < MDAYS[m]
    requires MarchDays(m) + r < 365 || IsLeap(y + 1)
    ensures m < 10 ==>
      && ValidDate(y, m + 2, r + 1)
      && DayNumber(y, m + 2, r + 1) == MarchFirst(y) + MarchDays(m) + r
      && DaysBeforeMonth(y, m + 2) + r == MarchDays(m) + r + 59 + (if IsLeap(y) then 1 else 0)
      && MarchDays(m) + r < 306
    ensures m >= 10 ==>
      && ValidDate(y + 1, m - 10, r + 1)
      && DayNumber(y + 1, m - 10, r + 1) == MarchFirst(y) + MarchDays(m) + r
      && DaysBeforeMonth(y + 1, m - 10) + r == MarchDays(m) + r - 306
      && MarchDays(m) + r >= 306
  {
    hide IsLeap, Leaps, DaysBeforeMonth, MarchFirst, DaysBeforeYear;
    MonthTable(y);
    MonthTable(y + 1);
    MarchYear(y);
    MarchTable();
  }

  lemma MarchTable()
    ensures MarchDays(0) == 0 && MarchDays(1) == 31 && MarchDays(2) == 61 && MarchDays(3) == 92
    ensures MarchDays(4) == 122 && MarchDays(5) == 153 && MarchDays(6) == 184 && MarchDays(7) == 214
    ensures MarchDays(8) == 245 && MarchDays(9) == 275 && MarchDays(10) == 306 && MarchDays(11) == 337
    ensures MarchDays(12) == 366
  {
  }

  /** The nested cycles count days correctly. */
  lemma Cycles(qc: int, nc: int, nq: int, yr: int)
    requires 0 <= nc < 4 && 0 <= nq < 25 && 0 <= yr < 4
    ensures var y := 2000 + yr + 4 * nq + 100 * nc + 400 * qc;
      && MarchFirst(y) - MarchFirst(2000)
         == yr * 365 + nq * DAYS_PER_4Y + nc * DAYS_PER_100Y + qc * DAYS_PER_400Y
      && (IsLeap(y) <==> yr == 0 && (nq != 0 || nc == 0))
  {
    var y := 2000 + yr + 4 * nq + 100 * nc + 400 * qc;
    assert y / 4 == 500 + nq + 25 * nc + 100 * qc && y % 4 == yr;
    assert y / 100 == 20 + nc + 4 * qc && y % 100 == yr + 4 * nq;
    assert y / 400 == 5 + qc && y % 400 == yr + 4 * nq + 100 * nc;
  }

  // ------------------------------------------------------------------ tv2tm

  /** Day of the March year split into month and day of the month. */
  method SplitMonth(days: int) returns (mon: int, r: int)
    requires 0 <= days < 366
    ensures 0 <= mon < 12 && 0 <= r < MDAYS[mon] && MarchDays(mon) + r == days
  {
    MarchTable();
    mon, r := 0, days;
    while mon < 12 && MDAYS[mon] <= r
      invariant 0 <= mon <= 12 && 0 <= r && MarchDays(mon) + r == days
    {
      r := r - MDAYS[mon];
      mon := mon + 1;
    }
  }

  /** Day counted from 2000-03-01 to March year and day in it. */
  method SplitYear(days0: int) returns (year: int, days: int, leap: bool)
    requires FitsInt(days0)
    ensures 0 <= days < 366
    ensures MarchFirst(year) + days == MarchFirst(2000) + days0
    ensures days == 365 ==> IsLeap(year + 1)
    ensures leap <==> IsLeap(year)
  {
    hide IsLeap, MarchFirst;
    var qc, nc, nq;
    qc, days := SplitCycle(days0);
    nc, days := SplitLast(days, DAYS_PER_100Y, 4);
    nq, days := SplitLast(days, DAYS_PER_4Y, 25);
    year, days := SplitLast(days, 365, 4);
    Cycles(qc, nc, nq, year);
    if days == 365 { LeapDayExists(qc, nc, nq, year); }
    leap := year == 0 && (nq != 0 || nc == 0);
    year := year + 4 * nq + 100 * nc + 400 * qc + 2000;
  }

  /** 400-year cycles, rounding down. */
  method SplitCycle(days0: int) returns (qc: int, days: int)
    ensures 0 <= days < DAYS_PER_400Y && days0 == qc * DAYS_PER_400Y + days
  {
    qc := Quo(days0, DAYS_PER_400Y);
    days := Rem(days0, DAYS_PER_400Y);
    if days < 0 {
      days := days + DAYS_PER_400Y;
      qc := qc - 1;
    }
  }

  /** A cycle of `n` parts of `len` days, the last one a day longer. */
  method SplitLast(days0: int, len: int, n: int) returns (q: int, days: int)
    requires (len == DAYS_PER_100Y && n == 4) || (len == DAYS_PER_4Y && n == 25) || (len == 365 && n == 4)
    requires 0 <= days0 <= len * n
    ensures 0 <= q < n && 0 <= days <= len && days0 == q * len + days
    ensures days == len ==> q == n - 1 && days0 == len * n
  {
    q := Quo(days0, len);
    if q == n { q := q - 1; }
    days := days0 - q * len;
  }

  lemma Multiples(i: int, j: int, r: int, k: int)
    requires 0 <= r < 100
    ensures (4 * i) % 4 == 0 && (100 * j + r) % 100 == r && (400 * k) % 400 == 0
  {
  }

  /** Only the last day of a cycle is the 366th of its March year. */
  lemma LeapDayExists(qc: int, nc: int, nq: int, yr: int)
    requires 0 <= nc < 4 && 0 <= nq < 25 && yr == 3
    requires nq == 24 ==> nc == 3
    ensures IsLeap(2000 + yr + 4 * nq + 100 * nc + 400 * qc + 1)
  {
    var r := 4 * (nq + 1);
    Multiples(500 + nq + 1 + 25 * nc + 100 * qc, 20 + nc + 4 * qc, if nq == 24 then 0 else r, 6 + qc);
  }

  /** The day number from which `tv2tm` counts. */
  function DayOf(sec: int): int { (sec - LEAPOCH) / SECS_PER_DAY }

  /** `tv2tm` is right on every second whose day number fits an `int`, also
      before year 1: the fields are a valid date and time of day, they denote
      the second that was asked for, and the day of the year agrees with the
      date.  The day of the week does exactly when three days later still fit. */
  method Tv2tm(sec: int) returns (tm: Tm)
    requires FitsInt(DayOf(sec))
    ensures Valid(tm) && Seconds(tm) == sec && YearDay(tm)
    ensures WeekDay(tm) <==> FitsInt(DayOf(sec) + 3)
  {
    hide IsLeap, MarchFirst, DaysBeforeYear, DaysBeforeMonth, MarchDays, Wrapped;
    var days, secs := SplitDay(sec);
    var wday := CountWeek(days);
    var y, m, r, yday := SplitDate(days);
    var mins := secs / 60;
    tm := Tm(y, m, r, (mins / 60) % 24, mins % 60, secs % 60, wday, yday);
    Epoch();
    TimeOfDay(secs, days + MarchFirst(2000));
    WeekShift(days);
  }

  /** Days and seconds of the day, rounding down. */
  method SplitDay(sec: int) returns (days: int, secs: int)
    ensures sec - LEAPOCH == days * 86400 + secs && 0 <= secs < 86400 && days == DayOf(sec)
  {
    var ts := sec - LEAPOCH;
    days := Quo(ts, SECS_PER_DAY);
    secs := Rem(ts, SECS_PER_DAY);
    if secs < 0 {
      secs := secs + 86400;
      days := days - 1;
    }
  }

  /** The weekday, from a sum that may wrap around. */
  method CountWeek(days: int) returns (wday: int)
    ensures wday == Wrapped(3 + days) % 7
  {
    hide Wrapped;
    wday := Rem(Wrapped(3 + days), 7);
    if wday < 0 { wday := wday + 7; }
  }

  /** Wrapping around moves the day of the week by four. */
  lemma WeekShift(days: int)
    requires FitsInt(days)
    ensures Wrapped(3 + days) % 7 == (days + 11017 + 4) % 7 <==> FitsInt(days + 3)
  {
    assert FitsInt(days + 3) ==> Wrapped(3 + days) == 3 + days;
    assert !FitsInt(days + 3) ==> Wrapped(3 + days) == 3 + days - 0x1_0000_0000;
  }

  /** Day counted from 2000-03-01 to date and day of the year. */
  method SplitDate(days0: int) returns (y: int, m: int, d: int, yday: int)
    requires FitsInt(days0)
    ensures ValidDate(y + 1900, m, d) && DayNumber(y + 1900, m, d) == MarchFirst(2000) + days0
    ensures yday == DaysBeforeMonth(y + 1900, m) + d - 1
  {
    hide IsLeap, MarchFirst, DaysBeforeYear, DaysBeforeMonth, MarchDays;
    var year, days, leap := SplitYear(days0);
    var l := if leap then 1 else 0;
    yday := days + 31 + 28 + l;
    if yday >= 365 + l { yday := yday - (365 + l); }
    var mon, r := SplitMonth(days);
    MarchToJanuary(year, mon, r);
    y, m, d := year - 2000 + 100, mon + 2, r + 1;
    if m >= 12 {
      m := m - 12;
      y := y + 1;
    }
  }

  lemma Epoch()
    ensures MarchFirst(2000) == 11017 && 11017 * SECS_PER_DAY == LEAPOCH
  {
  }

  lemma TimeOfDay(secs: int, day: int)
    requires 0 <= secs < 86400
    ensures ((day * 24 + (secs / 60 / 60) % 24) * 60 + secs / 60 % 60) * 60 + secs % 60 == day * 86400 + secs
  {
  }

  // ------------------------------------------------------------------ tm2tv

  /** Leap years up to `y` as C computes them; off by one before year 0. */
  function LeapsRounded(y: int): int {
    Quo(y, 4) - Quo(y, 100) + Quo(y, 400)
  }

  lemma RoundedUp(y: int, k: int)
    requires k == 4 || k == 100 || k == 400
    ensures Quo(y, k) == if y < 0 && y % k != 0 then y / k + 1 else y / k
  {
  }

  /** Rounding towards zero is harmless from year 0 on, and before that only
      in leap years. */
  lemma LeapsAgree(y: int)
    ensures LeapsRounded(y) == Leaps(y) <==> y >= 0 || IsLeap(y)
    ensures LeapsRounded(y) == Leaps(y) || LeapsRounded(y) == Leaps(y) + 1
  {
    RoundedUp(y, 4);
    RoundedUp(y, 100);
    RoundedUp(y, 400);
    hide Quo;
    assert y % 400 == 0 ==> y % 100 == 0;
    assert y % 100 == 0 ==> y % 4 == 0;
  }

  /** The year whose leap years are counted: the March year of the date. */
  function CountedYear(tm: Tm): int {
    tm.year + 1900 - if tm.mon < 2 then 1 else 0
  }

  /** `tm2tv` gives the second of the date exactly when its March year is
      year 0 or later, or a leap year; otherwise it is one day late. */
  method Tm2tv(tm: Tm) returns (sec: int)
    requires Valid(tm)
    requires FitsInt(tm.year + 1900) && FitsInt((tm.year + 1900 - 1970) * 365)
    ensures sec == Seconds(tm) <==> CountedYear(tm) >= 0 || IsLeap(CountedYear(tm))
    ensures sec == Seconds(tm) || sec == Seconds(tm) + SECS_PER_DAY
  {
    hide IsLeap, Leaps, DaysBeforeMonth;
    var year := tm.year + 1900;
    var ts := (year - 1970) * 365;
    if tm.mon < 2 { year := year - 1; }
    var leapsTo1970 := Quo(1970, 4) - Quo(1970, 100) + Quo(1970, 400);
    var leapsToYear := Quo(year, 4) - Quo(year, 100) + Quo(year, 400);
    ts := ts + leapsToYear - leapsTo1970;
    ts := AddMonths(ts, tm.mon);
    ts := ts + (tm.mday - 1);
    MonthsBefore(tm, ts);
    ts := ts * 24 + tm.hour;
    ts := ts * 60 + tm.min;
    ts := ts * 60 + tm.sec;
    sec := ts;
  }

  const MDAYS_JANUARY: seq<int> := [31, 28, 31, 30, 31, 30, 31, 31, 30, 31, 30, 31]

  function CommonDays(m: int): int
    requires 0 <= m <= 12
  {
    if m == 0 then 0 else CommonDays(m - 1) + MDAYS_JANUARY[m - 1]
  }

  method AddMonths(ts0: int, mon: int) returns (ts: int)
    requires 0 <= mon <= 12
    ensures ts == ts0 + CommonDays(mon)
  {
    ts := ts0;
    for i := 0 to mon
      invariant ts == ts0 + CommonDays(i)
    {
      ts := ts + MDAYS_JANUARY[i];
    }
  }

  lemma CommonTable(y: int, m: int)
    requires 0 <= m <= 12
    ensures DaysBeforeMonth(y, m) == CommonDays(m) + if m >= 2 && IsLeap(y) then 1 else 0
  {
    hide IsLeap;
    if m > 0 { CommonTable(y, m - 1); }
  }

  /** Days counted by the code against the day number of the date. */
  lemma MonthsBefore(tm: Tm, ts: int)
    requires Valid(tm)
    requires ts == (tm.year + 1900 - 1970) * 365 + LeapsRounded(CountedYear(tm)) - LeapsRounded(1970)
                   + CommonDays(tm.mon) + tm.mday - 1
    ensures var n := DayNumber(tm.year + 1900, tm.mon, tm.mday);
      && (ts == n <==> CountedYear(tm) >= 0 || IsLeap(CountedYear(tm)))
      && (ts == n || ts == n + 1)
  {
    var y := tm.year + 1900;
    LeapsAgree(CountedYear(tm));
    CommonTable(y, tm.mon);
    LeapStep(y);
    assert LeapsRounded(1970) == Leaps(1969) == 477;
    hide IsLeap, Leaps, LeapsRounded, CommonDays, DaysBeforeMonth;
  }

  // ------------------------------------------------------------ round trips

  lemma {:induction false} YearsAscend(y: int, z: int)
    requires y < z
    ensures DaysBeforeYear(y) + 365 <= DaysBeforeYear(y + 1) <= DaysBeforeYear(z)
    decreases z - y
  {
    YearLength(y);
    if y + 1 < z { YearsAscend(y + 1, z); }
  }

  lemma {:induction false} MonthsAscend(y: int, m: int, n: int)
    requires 0 <= m < n <= 12
    ensures DaysBeforeMonth(y, m) + MonthDays(y, m) == DaysBeforeMonth(y, m + 1) <= DaysBeforeMonth(y, n)
    decreases n - m
  {
    hide IsLeap;
    if m + 1 < n { MonthsAscend(y, m + 1, n); }
  }

  /** A day belongs to its year. */
  lemma DayInYear(y: int, m: int, d: int)
    requires ValidDate(y, m, d)
    ensures DaysBeforeYear(y) <= DayNumber(y, m, d) < DaysBeforeYear(y + 1)
  {
    hide IsLeap, DaysBeforeYear;
    YearLength(y);
    MonthsAscend(y, m, 12);
    MonthsNonNegative(y, m);
  }

  lemma {:induction false} MonthsNonNegative(y: int, m: int)
    requires 0 <= m <= 12
    ensures DaysBeforeMonth(y, m) >= 0
  {
    hide IsLeap;
    if m > 0 { MonthsNonNegative(y, m - 1); }
  }

  /** Different valid dates have different day numbers. */
  lemma DayNumberInjective(y: int, m: int, d: int, z: int, n: int, e: int)
    requires ValidDate(y, m, d) && ValidDate(z, n, e)
    requires DayNumber(y, m, d) == DayNumber(z, n, e)
    ensures y == z && m == n && d == e
  {
    hide IsLeap, DaysBeforeYear, DaysBeforeMonth;
    DayInYear(y, m, d);
    DayInYear(z, n, e);
    if y < z { YearsAscend(y, z); }
    if z < y { YearsAscend(z, y); }
    if m < n { MonthsAscend(y, m, n); }
    if n < m { MonthsAscend(z, n, m); }
  }

  /** The second of a valid date determines every field. */
  lemma SecondsInjective(s: Tm, t: Tm)
    requires Valid(s) && Valid(t) && Seconds(s) == Seconds(t)
    ensures s.year == t.year && s.mon == t.mon && s.mday == t.mday
    ensures s.hour == t.hour && s.min == t.min && s.sec == t.sec
  {
    hide IsLeap, DaysBeforeYear, DaysBeforeMonth;
    var a, b := DayNumber(s.year + 1900, s.mon, s.mday), DayNumber(t.year + 1900, t.mon, t.mday);
    SameDigits(a, s.hour, s.min, s.sec, b, t.hour, t.min, t.sec);
    DayNumberInjective(s.year + 1900, s.mon, s.mday, t.year + 1900, t.mon, t.mday);
  }

  lemma SameDigits(a: int, h: int, m: int, s: int, b: int, i: int, n: int, t: int)
    requires 0 <= h < 24 && 0 <= m < 60 && 0 <= s < 60 && 0 <= i < 24 && 0 <= n < 60 && 0 <= t < 60
    requires ((a * 24 + h) * 60 + m) * 60 + s == ((b * 24 + i) * 60 + n) * 60 + t
    ensures a == b && h == i && m == n && s == t
  {
  }

  /** A day number within `int` of the code's epoch keeps its year computations within `int`. */
  lemma YearFits(y: int, m: int, d: int)
    requires ValidDate(y, m, d) && FitsInt(DayNumber(y, m, d) - 11017)
    ensures FitsInt(y) && FitsInt((y - 1970) * 365)
  {
    hide IsLeap, DaysBeforeMonth;
    DayInYear(y, m, d);
  }

  /** Where the March year turns non-negative. */
  lemma CountedFrom(tm: Tm)
    requires Valid(tm)
    ensures CountedYear(tm) >= 0 <==> Seconds(tm) >= MarchFirst(0) * SECS_PER_DAY
  {
    hide IsLeap, DaysBeforeMonth;
    var y := CountedYear(tm);
    var n := DayNumber(tm.year + 1900, tm.mon, tm.mday);
    InMarchYear(tm);
    if y >= 0 { MarchAscend(0, y); } else { MarchAscend(y + 1, 0); }
  }

  lemma {:induction false} MarchAscend(y: int, z: int)
    requires y <= z
    ensures MarchFirst(y) <= MarchFirst(z)
    decreases z - y
  {
    if y < z {
      MarchYear(y);
      MarchYear(y + 1);
      MonthsNonNegative(y + 1, 2);
      MarchAscend(y + 1, z);
    }
  }

  lemma InMarchYear(tm: Tm)
    requires Valid(tm)
    ensures var n := DayNumber(tm.year + 1900, tm.mon, tm.mday);
      MarchFirst(CountedYear(tm)) <= n < MarchFirst(CountedYear(tm) + 1)
  {
    hide IsLeap, DaysBeforeMonth, DaysBeforeYear, MarchFirst;
    var y := tm.year + 1900;
    MarchYear(CountedYear(tm));
    MarchYear(CountedYear(tm) + 1);
    YearLength(CountedYear(tm));
    if tm.mon < 2 {
      MonthsAscend(y, tm.mon, 2);
      MonthsNonNegative(y, tm.mon);
    } else {
      MonthsNonNegative(y + 1, 2);
      DayInYear(y, tm.mon, tm.mday);
      if tm.mon > 2 { MonthsAscend(y, 2, tm.mon); }
      MonthsAscend(y, 1, 2);
      MonthDaysPositive(y, 2);
    }
  }

  lemma MonthDaysPositive(y: int, m: int)
    requires 0 <= m < 12
    ensures MonthDays(y, m) >= 28
  {
  }

  /** Seconds survive the trip exactly when the March year they fall into is
      year 0 or later, or a leap year. */
  method SecondsThereAndBack(sec: int) returns (tm: Tm, sec': int)
    requires FitsInt(DayOf(sec))
    ensures Valid(tm) && Seconds(tm) == sec && YearDay(tm)
    ensures WeekDay(tm) <==> FitsInt(DayOf(sec) + 3)
    ensures sec' == sec <==> CountedYear(tm) >= 0 || IsLeap(CountedYear(tm))
    ensures sec >= MarchFirst(0) * SECS_PER_DAY ==> sec' == sec
  {
    hide IsLeap, DaysBeforeMonth, DaysBeforeYear;
    tm := Tv2tm(sec);
    SecondsDay(tm);
    YearFits(tm.year + 1900, tm.mon, tm.mday);
    CountedFrom(tm);
    sec' := Tm2tv(tm);
  }

  lemma SecondsDay(tm: Tm)
    requires Valid(tm)
    ensures DayNumber(tm.year + 1900, tm.mon, tm.mday) - 11017 == DayOf(Seconds(tm))
  {
    hide IsLeap, DaysBeforeMonth, DaysBeforeYear;
    var n := DayNumber(tm.year + 1900, tm.mon, tm.mday);
    var r := (tm.hour * 60 + tm.min) * 60 + tm.sec;
    assert Seconds(tm) - LEAPOCH == (n - 11017) * 86400 + r;
  }

  /** Dates survive the trip under the same condition; outside it they come
      back a day later. */
  method DateThereAndBack(tm: Tm) returns (tm': Tm)
    requires Valid(tm)
    requires FitsInt(DayNumber(tm.year + 1900, tm.mon, tm.mday) - 11017 + 1)
    requires FitsInt(DayNumber(tm.year + 1900, tm.mon, tm.mday) - 11017)
    ensures Valid(tm') && YearDay(tm') && (WeekDay(tm') <==> FitsInt(DayOf(Seconds(tm')) + 3))
    ensures tm' == tm.(wday := tm'.wday, yday := tm'.yday) <==>
      CountedYear(tm) >= 0 || IsLeap(CountedYear(tm))
    ensures tm.year + 1900 >= 1 ==> tm' == tm.(wday := tm'.wday, yday := tm'.yday)
    ensures Seconds(tm') == Seconds(tm) || Seconds(tm') == Seconds(tm) + SECS_PER_DAY
  {
    hide IsLeap, DaysBeforeMonth, DaysBeforeYear, MarchFirst;
    YearFits(tm.year + 1900, tm.mon, tm.mday);
    SecondsDay(tm);
    var sec := Tm2tv(tm);
    tm' := Tv2tm(sec);
    if Seconds(tm') == Seconds(tm) { SecondsInjective(tm', tm); }
  }

  /** The first of January of year 0 comes out a day late. */
  method YearZero() returns (sec: int)
    ensures var tm := Tm(-1900, 0, 1, 0, 0, 0, 0, 0);
      Seconds(tm) == -719528 * SECS_PER_DAY && sec == Seconds(tm) + SECS_PER_DAY
  {
    sec := Tm2tv(Tm(-1900, 0, 1, 0, 0, 0, 0, 0));
  }

  /** The weekday of the last second a day number can be counted for is wrong. */
  method LastDay() returns (tm: Tm)
    ensures Valid(tm) && DayOf(Seconds(tm)) == 0x7FFF_FFFF && !WeekDay(tm)
  {
    hide Seconds, WeekDay, YearDay, Valid;
    tm := Tv2tm(LEAPOCH + 0x7FFF_FFFF * SECS_PER_DAY);
  }
}
