/**
 Seconds since 1970 and broken-down Gregorian time (deps/src/libc_time.c).  A year is counted
 from 1900 as in the source.
 */
module LibcTime {
  import opened Arith
  import opened Bytes

  const INT_MIN: int := -0x8000_0000
  const INT_MAX: int := 0x7FFF_FFFF
  const LEAPOCH: int := 946684800 + 86400 * (31 + 29)
  const DAYS_PER_400Y: int := 365 * 400 + 97
  const DAYS_PER_100Y: int := 365 * 100 + 24
  const DAYS_PER_4Y: int := 365 * 4 + 1

  /** The first second that is accepted, the first whose year overflows, and the first refused again. */
  const FIRST_SECOND: int := -67768040604556800
  const OVERFLOW_SECOND: int := 67768036191676800
  const END_SECOND: int := 67768036196860800

  datatype Tm = Tm(year: int, mon: int, mday: int, hour: int, min: int, sec: int)

  // ---- Reference: the proleptic Gregorian calendar ----

  predicate LeapYear(y: int) { y % 4 == 0 && (y % 100 != 0 || y % 400 == 0) }

  function YearLength(y: int): int { if LeapYear(y) then 366 else 365 }

  function MonthLength(y: int, m: int): int
    requires 0 <= m < 12
  {
    if m == 1 then (if LeapYear(y) then 29 else 28)
    else if m == 3 || m == 5 || m == 8 || m == 10 then 30
    else 31
  }

  /** Days from 1 January 1970 to 1 January of `y`, year by year. */
  ghost function YearStart(y: int): int
    decreases if y >= 1970 then y - 1970 else 1970 - y
  {
    if y == 1970 then 0
    else if y > 1970 then YearStart(y - 1) + YearLength(y - 1)
    else YearStart(y + 1) - YearLength(y)
  }

  /** Days from the start of the year to the start of month `m`, month by month. */
  ghost function MonthStart(y: int, m: int): int
    requires 0 <= m <= 12
    decreases m
  {
    if m == 0 then 0 else MonthStart(y, m - 1) + MonthLength(y, m - 1)
  }

  predicate ValidDate(tm: Tm) {
    0 <= tm.mon < 12 && 1 <= tm.mday <= MonthLength(tm.year + 1900, tm.mon)
    && 0 <= tm.hour < 24 && 0 <= tm.min < 60 && 0 <= tm.sec < 60
  }

  /** The seconds a date means; the month may be any number, twelve of them being a year. */
  ghost function Seconds(tm: Tm): int {
    var y := tm.year + 1900 + tm.mon / 12;
    86400 * (YearStart(y) + MonthStart(y, tm.mon % 12) + tm.mday - 1) + 3600 * tm.hour + 60 * tm.min + tm.sec
  }

  /** Leap days up to the end of year `y`. */
  function LeapDays(y: int): int { y / 4 - y / 100 + y / 400 }

  lemma LeapDaysStep(y: int)
    ensures LeapDays(y) == LeapDays(y - 1) + (if LeapYear(y) then 1 else 0)
  {
    QuotStep(y, 4);
    QuotStep(y, 100);
    QuotStep(y, 400);
    Multiples(y);
  }

  lemma Multiples(y: int)
    ensures y % 400 == 0 ==> y % 100 == 0
    ensures y % 100 == 0 ==> y % 4 == 0
  {
    if y % 400 == 0 {
      DivModOf(4 * (y / 400), 0, 100);
    }
    if y % 100 == 0 {
      DivModOf(25 * (y / 100), 0, 4);
    }
  }

  lemma QuotStep(y: int, d: int)
    requires d == 4 || d == 100 || d == 400
    ensures y / d == (y - 1) / d + (if y % d == 0 then 1 else 0)
  {
  }

  lemma {:induction false} YearStartIs(y: int)
    ensures YearStart(y) == 365 * (y - 1970) + LeapDays(y - 1) - 477
    decreases if y >= 1970 then y - 1970 else 1970 - y
  {
    assert LeapDays(1969) == 477;
    if y > 1970 {
      YearStartIs(y - 1);
      LeapDaysStep(y - 1);
    } else if y < 1970 {
      YearStartIs(y + 1);
      LeapDaysStep(y);
    }
  }

  lemma MonthStartIs(y: int, m: int)
    requires 0 <= m <= 12
    ensures MonthStart(y, m) ==
      (if m == 0 then 0 else if m == 1 then 31 else if m == 2 then 59 else if m == 3 then 90 else if m == 4 then 120
       else if m == 5 then 151 else if m == 6 then 181 else if m == 7 then 212 else if m == 8 then 243
       else if m == 9 then 273 else if m == 10 then 304 else if m == 11 then 334 else 365)
      + (if m >= 2 && LeapYear(y) then 1 else 0)
    decreases m
  {
    if m > 0 {
      MonthStartIs(y, m - 1);
    }
  }

  // ---- Seconds of a date ----

  function SecsThroughMonth(m: int): int
    requires 0 <= m < 12
  {
    86400 * [0, 31, 59, 90, 120, 151, 181, 212, 243, 273, 304, 334][m]
  }

  method MonthToSecs(month: int, isLeap: bool) returns (t: int)
    requires 0 <= month < 12
    ensures forall y :: LeapYear(y) == isLeap ==> t == 86400 * MonthStart(y, month)
  {
    t := SecsThroughMonth(month);
    if isLeap && month >= 2 {
      t := t + 86400;
    }
    forall y | LeapYear(y) == isLeap
      ensures t == 86400 * MonthStart(y, month)
    {
      MonthStartIs(y, month);
    }
  }

  /** Centuries and leap days inside a 400-year cycle, and whether the year is a leap year. */
  method InCycle(r: int) returns (centuries: int, leaps: int, isLeap: bool)
    requires 0 <= r < 400
    ensures centuries == r / 100 && leaps == (if r == 0 then 0 else r % 100 / 4)
    ensures isLeap <==> r == 0 || (r % 4 == 0 && r % 100 != 0)
  {
    var rem := r;
    if rem == 0 {
      return 0, 0, true;
    }
    if rem >= 200 {
      if rem >= 300 {
        centuries, rem := 3, rem - 300;
      } else {
        centuries, rem := 2, rem - 200;
      }
    } else if rem >= 100 {
      centuries, rem := 1, rem - 100;
    } else {
      centuries := 0;
    }
    assert rem == r % 100 && rem % 4 == r % 4;
    if rem == 0 {
      isLeap, leaps := false, 0;
    } else {
      leaps := rem / 4;
      rem := rem % 4;
      isLeap := rem == 0;
    }
  }

  /** Seconds to the start of a year counted from 1900, and whether it is a leap year. */
  method YearToSecs(year: int) returns (t: int, isLeap: bool)
    ensures isLeap == LeapYear(year + 1900) && t == 86400 * YearStart(year + 1900)
  {
    hide YearStart, LeapYear, LeapDays;
    FloorCorrection(year - 100, 400);
    var cycles := Quot(year - 100, 400);
    var rem := Rem(year - 100, 400);
    if rem < 0 {
      cycles := cycles - 1;
      rem := rem + 400;
    }
    assert 0 <= rem < 400 && year - 100 == 400 * cycles + rem;
    var centuries, leaps;
    centuries, leaps, isLeap := InCycle(rem);
    CycleLeaps(year + 1900, cycles, rem);
    leaps := leaps + 97 * cycles + 24 * centuries - (if isLeap then 1 else 0);
    t := (year - 100) * 31536000 + leaps * 86400 + 946684800 + 86400;
    YearStartIs(year + 1900);
  }

  lemma CycleQuotients(y: int, cycles: int, r: int)
    requires y == 2000 + 400 * cycles + r && 0 <= r < 400
    ensures y / 400 == cycles + 5 && y % 400 == r
    ensures y / 100 == 4 * (cycles + 5) + r / 100 && y % 100 == r % 100
    ensures y / 4 == 100 * (cycles + 5) + 25 * (r / 100) + r % 100 / 4 && y % 4 == r % 100 % 4
  {
    var c, q := r / 100, r % 100;
    var e, u := q / 4, q % 4;
    DivModOf(cycles + 5, r, 400);
    DivModOf(4 * (cycles + 5) + c, q, 100);
    DivModOf(100 * (cycles + 5) + 25 * c + e, u, 4);
  }

  /** A year as a 400-year cycle from 2000 and the years into it. */
  lemma CycleLeaps(y: int, cycles: int, r: int)
    requires y == 2000 + 400 * cycles + r && 0 <= r < 400
    ensures LeapYear(y) <==> r == 0 || (r % 4 == 0 && r % 100 != 0)
    ensures LeapDays(y - 1) == 485 + 97 * cycles + 24 * (r / 100) + (if r == 0 then 0 else r % 100 / 4)
                               - (if LeapYear(y) then 1 else 0)
  {
    CycleQuotients(y, cycles, r);
    assert r % 4 == r % 100 % 4 by { CycleQuotients(2000 + r, 0, r); }
    LeapDaysStep(y);
  }

  /** __tm_to_secs: a month outside 0..11 is carried into the year. */
  method TmToSecs(tm: Tm) returns (t: int)
    ensures t == Seconds(tm)
  {
    var year, month := tm.year, tm.mon;
    if month >= 12 || month < 0 {
      var adj := Quot(month, 12);
      month := Rem(month, 12);
      if month < 0 {
        adj := adj - 1;
        month := month + 12;
      }
      year := year + adj;
    }
    assert month == tm.mon % 12 && year == tm.year + tm.mon / 12;
    var isLeap;
    t, isLeap := YearToSecs(year);
    var m := MonthToSecs(month, isLeap);
    t := t + m;
    t := t + 86400 * (tm.mday - 1);
    t := t + 3600 * tm.hour;
    t := t + 60 * tm.min;
    t := t + tm.sec;
  }

  /** Moving the month by 12k is moving the year by k. */
  lemma MonthsCarry(tm: Tm, k: int)
    ensures Seconds(tm.(mon := tm.mon + 12 * k)) == Seconds(tm.(year := tm.year + k))
  {
    assert (tm.mon + 12 * k) / 12 == tm.mon / 12 + k && (tm.mon + 12 * k) % 12 == tm.mon % 12;
  }

  // ---- The date of a second ----

  /** Days in the months of a year that starts on 1 March. */
  function MarchMonthLength(m: int): int
    requires 0 <= m < 12
  {
    [31, 30, 31, 30, 31, 31, 30, 31, 30, 31, 31, 29][m]
  }

  /** Days before month `m` of a year that starts on 1 March. */
  function MarchMonthStart(m: int): int
    requires 0 <= m <= 12
  {
    if m == 0 then 0 else MarchMonthStart(m - 1) + MarchMonthLength(m - 1)
  }

  lemma MarchMonthStartIs(m: int)
    requires 0 <= m <= 12
    ensures MarchMonthStart(m) == [0, 31, 61, 92, 122, 153, 184, 214, 245, 275, 306, 337, 366][m]
    decreases m
  {
    if m > 0 { MarchMonthStartIs(m - 1); }
  }

  /** Days from 1 March 2000 to 1 March of the year 2000 + n. */
  function MarchYear(n: int): int { 365 * n + n / 4 - n / 100 + n / 400 }

  lemma MarchYearIs(n: int)
    ensures MarchYear(n) == YearStart(2000 + n) + MonthStart(2000 + n, 2) - 11017
  {
    YearStartIs(2000 + n);
    MonthStartIs(2000 + n, 2);
    LeapDaysStep(2000 + n);
    assert (2000 + n) / 4 == 500 + n / 4 && (2000 + n) / 100 == 20 + n / 100 && (2000 + n) / 400 == 5 + n / 400;
  }

  /** Splits days since 1 March 2000 into the March-based year and the days into it. */
  method SplitDays(days: int) returns (years: int, remdays: int)
    ensures days == MarchYear(years) + remdays
    ensures 0 <= remdays < (if LeapYear(2001 + years) then 366 else 365)
  {
    hide MarchYear, LeapYear;
    FloorCorrection(days, DAYS_PER_400Y);
    var qc_cycles := Quot(days, DAYS_PER_400Y);
    remdays := Rem(days, DAYS_PER_400Y);
    if remdays < 0 {
      remdays := remdays + DAYS_PER_400Y;
      qc_cycles := qc_cycles - 1;
    }
    assert days == qc_cycles * DAYS_PER_400Y + remdays && 0 <= remdays < DAYS_PER_400Y;
    var c_cycles := remdays / DAYS_PER_100Y;
    if c_cycles == 4 {
      c_cycles := c_cycles - 1;
    }
    remdays := remdays - c_cycles * DAYS_PER_100Y;
    assert 0 <= c_cycles < 4 && 0 <= remdays <= DAYS_PER_100Y && (c_cycles < 3 ==> remdays < DAYS_PER_100Y);
    var q_cycles := remdays / DAYS_PER_4Y;
    assert 0 <= q_cycles < 25;
    if q_cycles == 25 {
      q_cycles := q_cycles - 1;
    }
    remdays := remdays - q_cycles * DAYS_PER_4Y;
    assert 0 <= remdays < DAYS_PER_4Y && (q_cycles == 24 && c_cycles < 3 ==> remdays < DAYS_PER_4Y - 1);
    var remyears := remdays / 365;
    if remyears == 4 {
      remyears := remyears - 1;
    }
    remdays := remdays - remyears * 365;
    assert 0 <= remyears < 4 && 0 <= remdays <= 365;
    assert remdays == 365 ==> remyears == 3 && (q_cycles < 24 || c_cycles == 3);
    years := remyears + 4 * q_cycles + 100 * c_cycles + 400 * qc_cycles;
    CycleYears(qc_cycles, c_cycles, q_cycles, remyears);
  }

  lemma CycleYears(qc: int, c: int, q: int, y: int)
    requires 0 <= c < 4 && 0 <= q < 25 && 0 <= y < 4
    ensures var n := y + 4 * q + 100 * c + 400 * qc;
            && MarchYear(n) == qc * DAYS_PER_400Y + c * DAYS_PER_100Y + q * DAYS_PER_4Y + y * 365
            && (LeapYear(2001 + n) <==> y == 3 && (q < 24 || c == 3))
  {
    DivModOf(q + 25 * c + 100 * qc, y, 4);
    DivModOf(c + 4 * qc, y + 4 * q, 100);
    DivModOf(qc, y + 4 * q + 100 * c, 400);
    CycleLeapYear(qc, c, q, y);
  }

  lemma CycleLeapYear(qc: int, c: int, q: int, y: int)
    requires 0 <= c < 4 && 0 <= q < 25 && 0 <= y < 4
    ensures LeapYear(2001 + (y + 4 * q + 100 * c + 400 * qc)) <==> y == 3 && (q < 24 || c == 3)
  {
    var r := y + 4 * q + 1;
    if y < 3 {
      DivModOf(500 + q + 25 * c + 100 * qc, y + 1, 4);
    } else {
      DivModOf(500 + q + 25 * c + 100 * qc + 1, 0, 4);
      if q < 24 {
        DivModOf(20 + c + 4 * qc, r, 100);
      } else {
        DivModOf(20 + c + 4 * qc + 1, 0, 100);
        if c < 3 {
          DivModOf(5 + qc, 100 * c + 100, 400);
        } else {
          DivModOf(5 + qc + 1, 0, 400);
        }
      }
    }
  }

  /** The month loop: it stops inside the table. */
  method MonthLoop(remdays: int) returns (months: int, rest: int)
    requires 0 <= remdays < 366
    ensures 0 <= months < 12 && 0 <= rest < MarchMonthLength(months) && remdays == MarchMonthStart(months) + rest
  {
    months, rest := 0, remdays;
    MarchMonthStartIs(12);
    while MarchMonthLength(months) <= rest
      invariant 0 <= months < 12 && 0 <= rest && remdays == MarchMonthStart(months) + rest
      decreases 12 - months
    {
      MarchMonthStartIs(months + 1);
      rest := rest - MarchMonthLength(months);
      months := months + 1;
    }
  }

  /** The March-based year (counted from 2000) that a date belongs to. */
  function MarchYearOf(tm: Tm): int { tm.year - 100 - (if tm.mon < 2 then 1 else 0) }

  /**
   __secs_to_tm.  A second is accepted exactly from 1 March of year INT_MIN to the end of February
   of year INT_MAX + 1, and gets the one valid date that means it.  In the last two months the
   year, incremented after its range check, is no longer an int.
   */
  method SecsToTm(t: int) returns (r: Option<Tm>)
    ensures r.Some? <==> FIRST_SECOND <= t < END_SECOND
    ensures r.Some? ==> ValidDate(r.value) && Seconds(r.value) == t
    ensures r.Some? ==> INT_MIN <= r.value.year && (r.value.year > INT_MAX <==> t >= OVERFLOW_SECOND)
  {
    if t < INT_MIN * 31622400 || t > INT_MAX * 31622400 {
      return None;
    }
    hide ValidDate, Seconds, MarchYear, LeapYear, MonthLength;
    var secs := t - LEAPOCH;
    FloorCorrection(secs, 86400);
    var days := Quot(secs, 86400);
    var remsecs := Rem(secs, 86400);
    if remsecs < 0 {
      remsecs := remsecs + 86400;
      days := days - 1;
    }
    assert secs == 86400 * days + remsecs && 0 <= remsecs < 86400;
    var years, remdays := SplitDays(days);
    var months;
    var yearDays := remdays;
    months, remdays := MonthLoop(remdays);
    var tm := Tm(years + 100, months + 2, remdays + 1, remsecs / 3600, remsecs / 60 % 60, remsecs % 60);
    if tm.mon >= 12 {
      tm := tm.(mon := tm.mon - 12, year := tm.year + 1);
    }
    DateMeans(tm, years, months, remdays, yearDays, remsecs);
    AcceptedDates(tm, t);
    if years + 100 > INT_MAX || years + 100 < INT_MIN {
      return None;
    }
    return Some(tm);
  }

  lemma ClockOf(s: int)
    requires 0 <= s < 86400
    ensures 3600 * (s / 3600) + 60 * (s / 60 % 60) + s % 60 == s && s / 3600 < 24
  {
    assert s / 3600 == s / 60 / 60;
  }

  /** The assembled date is valid and means the second it was computed from. */
  lemma DateMeans(tm: Tm, years: int, months: int, rest: int, yearDays: int, s: int)
    requires 0 <= months < 12 && 0 <= rest < MarchMonthLength(months) && yearDays == MarchMonthStart(months) + rest
    requires yearDays < (if LeapYear(2001 + years) then 366 else 365) && 0 <= s < 86400
    requires tm == Tm(if months >= 10 then years + 101 else years + 100, if months >= 10 then months - 10 else months + 2,
                      rest + 1, s / 3600, s / 60 % 60, s % 60)
    ensures ValidDate(tm) && Seconds(tm) == LEAPOCH + 86400 * (MarchYear(years) + yearDays) + s
    ensures MarchYearOf(tm) == years
  {
    hide MarchYear, LeapYear, MonthLength, MonthStart, YearStart, MarchMonthLength, MarchMonthStart;
    MarchDate(years, months, rest, yearDays);
    ClockOf(s);
  }

  /** A day of the March-based year as a calendar date. */
  lemma MarchDate(years: int, months: int, rest: int, yearDays: int)
    requires 0 <= months < 12 && 0 <= rest < MarchMonthLength(months) && yearDays == MarchMonthStart(months) + rest
    requires yearDays < (if LeapYear(2001 + years) then 366 else 365)
    ensures var y, m := (if months >= 10 then 2001 + years else 2000 + years), (if months >= 10 then months - 10 else months + 2);
            && rest + 1 <= MonthLength(y, m)
            && YearStart(y) + MonthStart(y, m) + rest == MarchYear(years) + yearDays + 11017
  {
    hide MarchYear, LeapYear, MonthStart, YearStart, MarchMonthStart;
    MarchMonthStartIs(months);
    MarchYearIs(years);
    MonthStartIs(2000 + years, 2);
    if months >= 10 {
      MonthStartIs(2001 + years, months - 10);
      YearStartGrows(2000 + years);
    } else {
      MonthStartIs(2000 + years, months + 2);
    }
  }

  // ---- A second has one date ----

  lemma YearStartGrows(y: int)
    ensures YearStart(y + 1) == YearStart(y) + YearLength(y)
  {
    YearStartIs(y);
    YearStartIs(y + 1);
    LeapDaysStep(y);
  }

  lemma {:induction false} YearStartMonotone(y: int, z: int)
    requires y < z
    ensures YearStart(y) + YearLength(y) <= YearStart(z)
    decreases z - y
  {
    YearStartGrows(y);
    if y + 1 < z {
      YearStartMonotone(y + 1, z);
    }
  }

  lemma {:induction false} MonthStartMonotone(y: int, m: int, n: int)
    requires 0 <= m < n <= 12
    ensures MonthStart(y, m) + MonthLength(y, m) <= MonthStart(y, n) <= YearLength(y)
    decreases n - m
  {
    MonthStartIs(y, n);
    if m + 1 < n {
      MonthStartMonotone(y, m, n - 1);
    }
  }

  /** Two valid dates that mean the same second are the same date. */
  lemma DateUnique(a: Tm, b: Tm)
    requires ValidDate(a) && ValidDate(b) && Seconds(a) == Seconds(b)
    ensures a == b
  {
    hide YearStart, MonthStart, MonthLength, YearLength;
    var y, z := a.year + 1900, b.year + 1900;
    var s := 3600 * a.hour + 60 * a.min + a.sec;
    var u := 3600 * b.hour + 60 * b.min + b.sec;
    SameDay(YearStart(y) + MonthStart(y, a.mon) + a.mday - 1, s, YearStart(z) + MonthStart(z, b.mon) + b.mday - 1, u);
    SameDate(y, a.mon, a.mday, z, b.mon, b.mday);
    ClockUnique(a.hour, a.min, a.sec, b.hour, b.min, b.sec);
  }

  lemma SameDay(d: int, s: int, e: int, u: int)
    requires 86400 * d + s == 86400 * e + u && 0 <= s < 86400 && 0 <= u < 86400
    ensures d == e && s == u
  {
  }

  lemma SameDate(y: int, m: int, d: int, z: int, n: int, e: int)
    requires 0 <= m < 12 && 1 <= d <= MonthLength(y, m) && 0 <= n < 12 && 1 <= e <= MonthLength(z, n)
    requires YearStart(y) + MonthStart(y, m) + d == YearStart(z) + MonthStart(z, n) + e
    ensures y == z && m == n && d == e
  {
    hide YearStart, MonthStart, MonthLength, YearLength;
    InYear(y, m, d);
    InYear(z, n, e);
    if y < z { YearStartMonotone(y, z); }
    if z < y { YearStartMonotone(z, y); }
    if m < n { MonthStartMonotone(y, m, n); }
    if n < m { MonthStartMonotone(y, n, m); }
  }

  lemma InYear(y: int, m: int, d: int)
    requires 0 <= m < 12 && 1 <= d <= MonthLength(y, m)
    ensures 0 <= MonthStart(y, m) + d - 1 < YearLength(y)
  {
    MonthStartIs(y, m);
    MonthStartMonotone(y, m, 12);
  }

  lemma ClockUnique(h: int, m: int, s: int, h': int, m': int, s': int)
    requires 0 <= h && 0 <= m < 60 && 0 <= s < 60 && 0 <= h' && 0 <= m' < 60 && 0 <= s' < 60
    requires 3600 * h + 60 * m + s == 3600 * h' + 60 * m' + s'
    ensures h == h' && m == m' && s == s'
  {
    assert 60 * (60 * h + m - 60 * h' - m') == s' - s;
  }

  // ---- Both round trips ----

  /** Every second that is accepted comes back. */
  method SecondsRoundTrip(t: int) returns (r: Option<Tm>, back: int)
    ensures r.Some? ==> back == t
  {
    r := SecsToTm(t);
    back := 0;
    if r.Some? {
      back := TmToSecs(r.value);
    }
  }

  /**
   Every valid date whose year is an int comes back, except the dates of January and February
   of year INT_MIN: their March-based year is one less, and they are refused.
   */
  method DateRoundTrip(tm: Tm) returns (r: Option<Tm>)
    requires ValidDate(tm) && INT_MIN <= tm.year <= INT_MAX
    ensures r == if tm.year == INT_MIN && tm.mon < 2 then None else Some(tm)
  {
    hide ValidDate, Seconds;
    var t := TmToSecs(tm);
    AcceptedDates(tm, t);
    r := SecsToTm(t);
    if r.Some? {
      DateUnique(r.value, tm);
    }
  }

  // ---- Which seconds are accepted, and which overflow ----

  /** The second that starts month `m` of year `y`. */
  ghost function MonthBegin(y: int, m: int): int
    requires 0 <= m < 12
  {
    86400 * (YearStart(y) + MonthStart(y, m))
  }

  /** A date lies before the start of a month exactly when its year and month do. */
  lemma MonthOrder(tm: Tm, y: int, m: int)
    requires ValidDate(tm) && 0 <= m < 12
    ensures Seconds(tm) < MonthBegin(y, m) <==> tm.year + 1900 < y || (tm.year + 1900 == y && tm.mon < m)
  {
    var z := tm.year + 1900;
    var d := MonthStart(z, tm.mon) + tm.mday - 1;
    var s := 3600 * tm.hour + 60 * tm.min + tm.sec;
    assert 0 <= s < 86400;
    assert Seconds(tm) == 86400 * (YearStart(z) + d) + s;
    InYear(z, tm.mon, tm.mday);
    InYear(y, m, 1);
    if z < y {
      YearStartMonotone(z, y);
    } else if z > y {
      YearStartMonotone(y, z);
    } else if tm.mon < m {
      MonthStartMonotone(y, tm.mon, m);
    } else if tm.mon > m {
      MonthStartMonotone(y, m, tm.mon);
    }
  }

  /** The three limits are the starts of months, and lie inside the first range check. */
  lemma Limits()
    ensures FIRST_SECOND == MonthBegin(INT_MIN + 1900, 2) > INT_MIN * 31622400
    ensures OVERFLOW_SECOND == MonthBegin(INT_MAX + 1901, 0) && END_SECOND == MonthBegin(INT_MAX + 1901, 2)
    ensures OVERFLOW_SECOND < END_SECOND <= INT_MAX * 31622400
  {
    YearStartIs(INT_MIN + 1900);
    YearStartIs(INT_MAX + 1901);
    MonthStartIs(INT_MIN + 1900, 2);
    MonthStartIs(INT_MAX + 1901, 2);
  }

  /**
   Of the second a date means one can tell whether the date passes the range check of the year,
   and whether its year overflows all the same.
   */
  lemma AcceptedDates(tm: Tm, t: int)
    requires ValidDate(tm) && Seconds(tm) == t
    ensures INT_MIN <= MarchYearOf(tm) + 100 <= INT_MAX <==> FIRST_SECOND <= t < END_SECOND
    ensures tm.year > INT_MAX <==> t >= OVERFLOW_SECOND
    ensures t >= FIRST_SECOND ==> tm.year >= INT_MIN
    ensures FIRST_SECOND <= t < END_SECOND ==> INT_MIN * 31622400 <= t <= INT_MAX * 31622400
  {
    hide Seconds, ValidDate, MonthBegin;
    Limits();
    MonthOf(tm);
    MonthOrder(tm, INT_MIN + 1900, 2);
    MonthOrder(tm, INT_MAX + 1901, 0);
    MonthOrder(tm, INT_MAX + 1901, 2);
  }

  lemma MonthOf(tm: Tm)
    requires ValidDate(tm)
    ensures 0 <= tm.mon < 12
  {
  }

  /** The first second whose year overflows: it is accepted, as 1 January of year INT_MAX + 1. */
  method YearOverflow() returns (r: Option<Tm>)
    ensures r == Some(Tm(INT_MAX + 1, 0, 1, 0, 0, 0))
  {
    hide YearStart;
    r := SecsToTm(OVERFLOW_SECOND);
    var tm := Tm(INT_MAX + 1, 0, 1, 0, 0, 0);
    Limits();
    DateUnique(r.value, tm);
  }
}
