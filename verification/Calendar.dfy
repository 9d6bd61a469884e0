/** sgmtime (times.c): seconds since the epoch to a Gregorian date, against a calendar that
    counts years and months one by one. */
module Calendar {
  import opened Integers

  /** Arithmetic of uint64_t, and its reading as int64_t. */
  function U64(x: int): nat { x % TWO64 }
  function S64(x: int): int { if U64(x) < TWO63 then U64(x) else U64(x) - TWO64 }

  datatype Tm = Tm(sec: int, min: int, hour: int, mday: int, mon: int, year: int, wday: int)

  // ---------- the calendar ----------

  predicate IsLeap(y: int) { y % 4 == 0 && (y % 100 != 0 || y % 400 == 0) }

  function Leap(y: int): int { if IsLeap(y) then 1 else 0 }

  function DaysIn(y: int, m: int): int {
    if m == 2 then 28 + Leap(y) else if m == 4 || m == 6 || m == 9 || m == 11 then 30 else 31
  }

  /** Days from January 1, 1970 to January 1 of `y`. */
  function YearStart(y: int): int
    decreases y
  {
    if y <= 1970 then 0 else YearStart(y - 1) + 365 + Leap(y - 1)
  }

  /** Days from January 1 to the first of month `m`. */
  function MonthStart(y: int, m: int): int
    decreases m
  {
    if m <= 1 then 0 else MonthStart(y, m - 1) + DaysIn(y, m - 1)
  }

  predicate IsDate(y: int, m: int, d: int) {
    1970 <= y && 1 <= m <= 12 && 1 <= d <= DaysIn(y, m)
  }

  function DayNumber(y: int, m: int, d: int): int { YearStart(y) + MonthStart(y, m) + d - 1 }

  predicate IsTm(r: Tm) {
    && IsDate(r.year, r.mon, r.mday)
    && 0 <= r.hour < 24 && 0 <= r.min < 60 && 0 <= r.sec < 60
    && r.wday == (4 + DayNumber(r.year, r.mon, r.mday)) % 7  // January 1, 1970 was a Thursday
  }

  /** Seconds Since the Epoch, with leap days counted by the calendar. */
  function Seconds(r: Tm): int {
    DayNumber(r.year, r.mon, r.mday) * 86400 + r.hour * 3600 + r.min * 60 + r.sec
  }

  /** The last second the conversion distinguishes: the end of the year 9999. */
  const MAX_DAYS := 2932896
  const MAX_TIME := MAX_DAYS * 86400 + 86399

  // ---------- the code ----------

  /** Days from March 1 of year 0 to March 1 of `year`, as the code counts them. */
  function MarchDays(year: int): int { 365 * year + year / 4 - year / 100 + year / 400 }

  function Estimate(days: int): int { (days + 2) * 400 / (365 * 400 + 100 - 4 + 1) }

  /** Year, month and day of the month, for a year and a day of it counted from March. */
  function FromMarch(year: int, yday: int): (int, int, int) {
    var mon := (yday + 31) * 10 / 306;
    var mday := yday - (367 * mon / 12 - 30) + 1;
    if yday >= 306 then (year + 1, mon - 10, mday) else (year, mon + 2, mday)
  }

  /** Year, month and day of the month, for a number of days since the epoch. */
  function Civil(days0: int): (int, int, int) {
    var days := U64(U64(days0 - (31 + 28)) + 719527);
    var year0 := Estimate(days);
    var yday0 := S64(days - MarchDays(year0));
    var yday := if yday0 < 0 then 365 + Leap(year0) + yday0 else yday0;
    var year := if yday0 < 0 then year0 - 1 else year0;
    FromMarch(year, yday)
  }

  function Sgmtime(time: int): Tm {
    var t := if time < 0 then 0 else time;
    var days := if t / 86400 > MAX_DAYS then MAX_DAYS else t / 86400;
    var sec := if t / 86400 > MAX_DAYS then 86399 else t % 86400;
    var (year, mon, mday) := Civil(days);
    Tm(sec % 3600 % 60, sec % 3600 / 60, sec / 3600, mday, mon, year, (4 + days) % 7)
  }

  // ---------- proofs ----------

  /** Between two March firsts lies a leap day exactly when the later year is a leap year. */
  lemma MarchYear(y: int)
    requires 0 <= y
    ensures MarchDays(y + 1) == MarchDays(y) + 365 + Leap(y + 1)
  {
    DivStep(y, 4);
    DivStep(y, 100);
    DivStep(y, 400);
    CenturyIsFourth(y + 1);
  }

  /** Multiples of 400 are multiples of 100, and those of 4. */
  lemma CenturyIsFourth(y: int)
    ensures (y % 400 == 0 ==> y % 100 == 0) && (y % 100 == 0 ==> y % 4 == 0)
  {
    if y % 100 == 0 {
      assert y == 4 * (25 * (y / 100));
    }
    if y % 400 == 0 {
      assert y == 100 * (4 * (y / 400));
    }
  }

  lemma DivStep(y: int, n: int)
    requires 0 <= y && (n == 4 || n == 100 || n == 400)
    ensures (y + 1) / n == y / n + (if (y + 1) % n == 0 then 1 else 0)
  {
    if n == 4 {} else if n == 100 {} else {}
  }

  lemma {:induction false} MarchIncreases(a: int, b: int)
    requires 0 <= a <= b
    ensures MarchDays(a) + 365 * (b - a) <= MarchDays(b)
    decreases b - a
  {
    if a < b {
      MarchIncreases(a, b - 1);
      MarchYear(b - 1);
    }
  }

  /** The year estimate is exact or one too large, so one correction suffices. */
  lemma EstimateIsClose(days: int)
    requires 0 <= days
    ensures var e := Estimate(days);
            && MarchDays(e) <= days + 366 && 0 <= e
            && days < MarchDays(e + 1)
            && (days < MarchDays(e) ==> 1 <= e && MarchDays(e - 1) <= days)
  {
    var e := Estimate(days);
    assert e * 146097 <= (days + 2) * 400 < (e + 1) * 146097;
    assert 400 * MarchDays(e + 1) >= 146097 * (e + 1) - 699 by {
      MarchLower(e + 1);
    }
    if 1 <= e {
      MarchUpper(e - 1);
      MarchYear(e - 1);
    }
  }

  lemma MarchLower(y: int)
    requires 0 <= y
    ensures 400 * MarchDays(y) >= 146097 * y - 699
  {
  }

  lemma MarchUpper(y: int)
    requires 0 <= y
    ensures 400 * MarchDays(y) <= 146097 * y + 396
  {
  }

  /** The empirical month formulas are exact on every day of a year that starts in March. */
  lemma MonthFormula(y: int, yday: int)
    requires 0 <= yday < 365 + Leap(y + 1)
    ensures var mon := (yday + 31) * 10 / 306;
            var mday := yday - (367 * mon / 12 - 30) + 1;
            && 1 <= mon <= 12
            && (yday < 306 ==>
                  && mon <= 10 && 1 <= mday <= DaysIn(y, mon + 2)
                  && MonthStart(y, mon + 2) + mday - 1 == 59 + Leap(y) + yday)
            && (306 <= yday ==>
                  && 11 <= mon && 1 <= mday <= DaysIn(y + 1, mon - 10)
                  && MonthStart(y + 1, mon - 10) + mday - 1 == yday - 306)
  {
    var mon := (yday + 31) * 10 / 306;
    assert 306 * mon <= (yday + 31) * 10 < 306 * (mon + 1);
    assert MonthStart(y, 3) == 59 + Leap(y);
    assert MonthStart(y, 6) == MonthStart(y, 3) + 92;
    assert MonthStart(y, 9) == MonthStart(y, 6) + 92;
    assert MonthStart(y, 12) == MonthStart(y, 9) + 91;
    if mon == 1 {} else if mon == 2 {} else if mon == 3 {} else if mon == 4 {} else if mon == 5 {} else if mon == 6 {}
    else if mon == 7 {} else if mon == 8 {} else if mon == 9 {} else if mon == 10 {} else if mon == 11 {} else {}
  }

  /** The calendar and the March count agree. */
  lemma {:induction false} YearStartIsMarch(y: int)
    requires 1970 <= y
    ensures YearStart(y) + 59 + Leap(y) == MarchDays(y) - 719468
    decreases y
  {
    if 1970 < y {
      YearStartIsMarch(y - 1);
      MarchYear(y - 1);
    }
  }

  /** Years and months are laid out one after the other, so a day has one date. */
  lemma {:induction false} YearsAscend(a: int, b: int)
    requires 1970 <= a < b
    ensures YearStart(a) + 365 + Leap(a) <= YearStart(b)
    decreases b - a
  {
    if a + 1 < b {
      YearsAscend(a, b - 1);
    }
  }

  lemma {:induction false} MonthsAscend(y: int, a: int, b: int)
    requires 1 <= a < b <= 13
    ensures MonthStart(y, a) + DaysIn(y, a) <= MonthStart(y, b)
    decreases b - a
  {
    if a + 1 < b {
      MonthsAscend(y, a, b - 1);
    }
  }

  lemma YearIsFull(y: int)
    ensures MonthStart(y, 13) == 365 + Leap(y)
  {
    assert MonthStart(y, 4) == 90 + Leap(y);
    assert MonthStart(y, 7) == MonthStart(y, 4) + 91;
    assert MonthStart(y, 10) == MonthStart(y, 7) + 92;
  }

  lemma DayInYear(y: int, m: int, d: int)
    requires IsDate(y, m, d)
    ensures 0 <= MonthStart(y, m) + d - 1 < 365 + Leap(y)
  {
    YearIsFull(y);
    MonthsAscend(y, m, 13);
    if 1 < m {
      MonthsAscend(y, 1, m);
    }
  }

  lemma DateIsUnique(y: int, m: int, d: int, y': int, m': int, d': int)
    requires IsDate(y, m, d) && IsDate(y', m', d') && DayNumber(y, m, d) == DayNumber(y', m', d')
    ensures y == y' && m == m' && d == d'
  {
    DayInYear(y, m, d);
    DayInYear(y', m', d');
    if y < y' {
      YearsAscend(y, y');
    } else if y' < y {
      YearsAscend(y', y);
    } else if m < m' {
      MonthsAscend(y, m, m');
    } else if m' < m {
      MonthsAscend(y, m', m);
    }
  }

  lemma TmIsUnique(a: Tm, b: Tm)
    requires IsTm(a) && IsTm(b) && Seconds(a) == Seconds(b)
    ensures a == b
  {
    DateIsUnique(a.year, a.mon, a.mday, b.year, b.mon, b.mday);
  }

  lemma SmallS64(x: int)
    requires -TWO63 <= x < TWO63
    ensures S64(x) == x
  {
  }

  /** The year and day of the year, counted from March, that the code arrives at. */
  lemma MarchDate(days: int) returns (year: int, yday: int)
    requires 719468 <= days <= MAX_DAYS + 719468
    ensures 1969 <= year && 0 <= yday < 365 + Leap(year + 1) && days == MarchDays(year) + yday
    ensures var e, y := Estimate(days), S64(days - MarchDays(Estimate(days)));
            && yday == (if y < 0 then 365 + Leap(e) + y else y)
            && year == (if y < 0 then e - 1 else e)
  {
    var e := Estimate(days);
    EstimateIsClose(days);
    MarchYear(e);
    assert MarchDays(1969) == 719162;
    MarchIncreases(0, e);
    assert MarchDays(0) == 0;
    hide *;
    SmallS64(days - MarchDays(e));
    if days < MarchDays(e) {
      MarchYear(e - 1);
      year, yday := e - 1, 365 + Leap(e) + (days - MarchDays(e));
    } else {
      year, yday := e, days - MarchDays(e);
    }
    if year < 1969 {
      MarchIncreases(year + 1, 1969);
    }
  }

  lemma SmallShift(days0: int)
    requires 0 <= days0 <= MAX_DAYS
    ensures U64(U64(days0 - (31 + 28)) + 719527) == days0 + 719468
  {
  }

  /** The date part of the result, for the March-based `year` and `yday`. */
  lemma DateOfMarch(year: int, yday: int)
    requires 1969 <= year && 0 <= yday < 365 + Leap(year + 1) && 719468 <= MarchDays(year) + yday
    ensures var (y, m, d) := FromMarch(year, yday);
            IsDate(y, m, d) && DayNumber(y, m, d) == MarchDays(year) + yday - 719468
  {
    MonthFormula(year, yday);
    YearStartIsMarch(year + 1);
    MarchYear(year);
    assert MarchDays(1969) == 719162;
    if 1970 <= year {
      YearStartIsMarch(year);
    }
    hide MonthStart, YearStart, MarchDays;
  }

  lemma CivilIsRight(days: int)
    requires 0 <= days <= MAX_DAYS
    ensures var (y, m, d) := Civil(days); IsDate(y, m, d) && DayNumber(y, m, d) == days
  {
    SmallShift(days);
    var year, yday := MarchDate(days + 719468);
    assert Civil(days) == FromMarch(year, yday) by {
      hide U64, S64, Estimate, MarchDays, Leap, FromMarch;
    }
    hide *;
    DateOfMarch(year, yday);
  }

  /** sgmtime returns the one valid date and time whose seconds since the epoch are `t`. Negative
      times count as 0, and times after the year 9999 as its last second. */
  lemma SgmtimeIsRight(t: int)
    ensures var r := Sgmtime(t);
            && IsTm(r) && r.year <= 9999
            && Seconds(r) == (if t < 0 then 0 else if MAX_TIME < t then MAX_TIME else t)
    ensures forall r :: IsTm(r) && Seconds(r) == (if t < 0 then 0 else if MAX_TIME < t then MAX_TIME else t) ==>
              r == Sgmtime(t)
  {
    var u := if t < 0 then 0 else if MAX_TIME < t then MAX_TIME else t;
    var r := Sgmtime(t);
    TimeOfDay(t);
    CivilIsRight(u / 86400);
    hide Sgmtime, Civil, MonthStart, YearStart, IsDate, DaysIn;
    assert Seconds(r) == u && IsTm(r);
    LastYear(r.year, r.mon, r.mday);
    OnlyTm(r);
  }

  lemma OnlyTm(r: Tm)
    requires IsTm(r)
    ensures forall q :: IsTm(q) && Seconds(q) == Seconds(r) ==> q == r
  {
    hide IsTm, Seconds;
    forall q | IsTm(q) && Seconds(q) == Seconds(r) ensures q == r {
      TmIsUnique(q, r);
    }
  }

  lemma TimeOfDay(t: int)
    ensures var u := if t < 0 then 0 else if MAX_TIME < t then MAX_TIME else t;
            var r := Sgmtime(t);
            && (r.year, r.mon, r.mday) == Civil(u / 86400) && r.wday == (4 + u / 86400) % 7
            && 0 <= r.hour < 24 && 0 <= r.min < 60 && 0 <= r.sec < 60
            && u / 86400 * 86400 + r.hour * 3600 + r.min * 60 + r.sec == u
  {
    hide Civil;
  }

  lemma LastYear(y: int, m: int, d: int)
    requires IsDate(y, m, d) && DayNumber(y, m, d) <= MAX_DAYS
    ensures y <= 9999
  {
    DayInYear(y, m, d);
    YearBound();
    if 10000 < y {
      YearsAscend(10000, y);
    }
  }

  /** The clamp is the last day of the year 9999. */
  lemma YearBound()
    ensures YearStart(10000) == MAX_DAYS + 1
  {
    YearStartIsMarch(10000);
  }
}
