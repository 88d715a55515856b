/** Calendar time to seconds since 1970: the accumulating loops of `mktime`, proved equal to the
    closed Gregorian formula and strictly monotone in the calendar order. */
module Mktime {
  import opened Wrappers

  /** Broken-down time; `year` counts from 1900, `mon` from 0, `mday` from 1. */
  datatype Tm = Tm(sec: int, min: int, hour: int, mday: int, mon: int, year: int)

  const DAYS_IN_MONTH: seq<int> := [31, 28, 31, 30, 31, 30, 31, 31, 30, 31, 30, 31]
  const TIME_MAX := 0x7FFF_FFFF        // largest 32-bit time_t

  predicate IsLeapYear(year: int) { year % 4 == 0 && (year % 100 != 0 || (year + 1900) % 400 == 0) }

  function DaysInYear(year: int): int { if IsLeapYear(year) then 366 else 365 }

  function MonthLength(mon: int, year: int): int
    requires 0 <= mon < 12
  {
    if mon == 1 && IsLeapYear(year) then 29 else DAYS_IN_MONTH[mon]
  }

  /** A date of the proleptic Gregorian calendar from 1970 on, without leap seconds. */
  predicate Valid(tm: Tm) {
    && 0 <= tm.sec < 60 && 0 <= tm.min < 60 && 0 <= tm.hour < 24
    && 0 <= tm.mon < 12 && 1 <= tm.mday <= MonthLength(tm.mon, tm.year) && tm.year >= 70
  }

  /** Days of the year before month `mon`. */
  function DaysBefore(mon: int, year: int): int
    requires 0 <= mon <= 12
  {
    if mon == 0 then 0 else DaysBefore(mon - 1, year) + MonthLength(mon - 1, year)
  }

  /** Day of the year, counted from 0. */
  function Yday(tm: Tm): int
    requires Valid(tm)
  {
    DaysBefore(tm.mon, tm.year) + tm.mday - 1
  }

  /** Seconds since the Epoch, as section 4.16 of POSIX.1-2017 XBD defines them. */
  function SecondsSinceEpoch(tm: Tm): int
    requires Valid(tm)
  {
    tm.sec + tm.min * 60 + tm.hour * 3600 + Yday(tm) * 86400 + (tm.year - 70) * 31536000
    + ((tm.year - 69) / 4) * 86400 - ((tm.year - 1) / 100) * 86400 + ((tm.year + 299) / 400) * 86400
  }

  function CommonDays(mon: int): int
    requires 0 <= mon <= 12
  {
    if mon == 0 then 0 else CommonDays(mon - 1) + DAYS_IN_MONTH[mon - 1]
  }

  function YearDays(from: int, to: int): int
    decreases to - from
  {
    if from >= to then 0 else YearDays(from, to - 1) + DaysInYear(to - 1)
  }

  lemma {:induction false} LeapDayAfterFebruary(mon: int, year: int)
    requires 0 <= mon <= 12
    ensures DaysBefore(mon, year) == CommonDays(mon) + if mon > 1 && IsLeapYear(year) then 1 else 0
    decreases mon
  {
    if mon > 0 { LeapDayAfterFebruary(mon - 1, year); }
  }

  lemma Quarters(y: int)
    ensures (y - 68) / 4 - (y - 69) / 4 == if y % 4 == 0 then 1 else 0
  {
  }

  lemma Centuries(y: int)
    ensures y / 100 - (y - 1) / 100 == if y % 100 == 0 then 1 else 0
    ensures y % 100 == 0 ==> y % 4 == 0
  {
    var q, r := y / 100, y % 100;
    assert y == 100 * q + r;
    assert r == 0 ==> y == 4 * (25 * q);
  }

  lemma FourCenturies(y: int)
    ensures (y + 300) / 400 - (y + 299) / 400 == if (y + 1900) % 400 == 0 then 1 else 0
    ensures (y + 1900) % 400 == 0 ==> y % 100 == 0
  {
    var q, r := (y + 1900) / 400, (y + 1900) % 400;
    var s := q - 4;
    assert y + 300 == 400 * s + r && y + 299 == 400 * s + r - 1;
    if r == 0 {
      assert y == 100 * (4 * q - 19);
      assert y + 299 == 400 * (s - 1) + 399;
    }
  }

  lemma {:induction false} YearDaysClosed(year: int)
    requires year >= 70
    ensures YearDays(70, year) == (year - 70) * 365 + (year - 69) / 4 - (year - 1) / 100 + (year + 299) / 400
    decreases year
  {
    if year > 70 {
      var y := year - 1;
      YearDaysClosed(y);
      Quarters(y);
      Centuries(y);
      FourCenturies(y);
    }
  }

  /** `mktime`: a null pointer gives 0; every valid date gives its seconds since the Epoch. */
  method Mktime(tm: Option<Tm>) returns (result: int)
    requires tm.Some? ==> tm.value.mon <= 12
    ensures tm.None? ==> result == 0
    ensures tm.Some? && Valid(tm.value) ==> result == SecondsSinceEpoch(tm.value)
  {
    if tm.None? {
      return 0;
    }
    var t := tm.value;
    result := t.mday - 1;

    var m := t.mon;
    while m > 0
      invariant m <= t.mon && (0 <= t.mon ==> 0 <= m)
      invariant 0 <= t.mon ==> result == t.mday - 1 + CommonDays(t.mon) - CommonDays(m)
    {
      m := m - 1;
      result := result + DAYS_IN_MONTH[m];
    }
    if t.mon > 1 && DaysInYear(t.year) == 366 {
      result := result + 1;
    }
    if 0 <= t.mon { LeapDayAfterFebruary(t.mon, t.year); }

    var y := 70;
    while y < t.year
      invariant 70 <= y && (t.year >= 70 ==> y <= t.year)
      invariant 0 <= t.mon ==> result == t.mday - 1 + DaysBefore(t.mon, t.year) + YearDays(70, y)
    {
      result := result + DaysInYear(y);
      y := y + 1;
    }
    if t.year >= 70 { YearDaysClosed(t.year); }

    result := result * (60 * 60 * 24);
    result := result + (t.sec + t.min * 60 + t.hour * 60 * 60);
  }

  /** The calendar order: year, month, day, then the time of day. */
  predicate Before(a: Tm, b: Tm) {
    if a.year != b.year then a.year < b.year
    else if a.mon != b.mon then a.mon < b.mon
    else if a.mday != b.mday then a.mday < b.mday
    else TimeOfDay(a) < TimeOfDay(b)
  }

  function TimeOfDay(a: Tm): int { a.sec + a.min * 60 + a.hour * 3600 }

  /** Days since the Epoch. */
  function Day(tm: Tm): int
    requires Valid(tm)
  {
    Yday(tm) + YearDays(70, tm.year)
  }

  lemma SecondsAreDaysAndTime(tm: Tm)
    requires Valid(tm)
    ensures SecondsSinceEpoch(tm) == Day(tm) * 86400 + TimeOfDay(tm) && 0 <= TimeOfDay(tm) < 86400
  {
    YearDaysClosed(tm.year);
  }

  lemma {:induction false} MonthsAdd(m: int, n: int, year: int)
    requires 0 <= m < n <= 12
    ensures DaysBefore(m, year) + MonthLength(m, year) <= DaysBefore(n, year)
    decreases n
  {
    if m + 1 < n { MonthsAdd(m, n - 1, year); }
  }

  lemma {:induction false} YearsAdd(a: int, b: int)
    requires 70 <= a < b
    ensures YearDays(70, a) + DaysInYear(a) <= YearDays(70, b)
    decreases b
  {
    if a + 1 < b { YearsAdd(a, b - 1); }
  }

  lemma YdayFits(tm: Tm)
    requires Valid(tm)
    ensures 0 <= Yday(tm) < DaysInYear(tm.year)
  {
    LeapDayAfterFebruary(12, tm.year);
    LeapDayAfterFebruary(tm.mon, tm.year);
    if tm.mon < 12 { MonthsAdd(tm.mon, 12, tm.year); }
    assert CommonDays(12) == 365 by { Twelve(); }
    MonthsPositive(tm.mon, tm.year);
  }

  lemma {:induction false} MonthsPositive(m: int, year: int)
    requires 0 <= m <= 12
    ensures DaysBefore(m, year) >= 0
  {
    if m > 0 { MonthsPositive(m - 1, year); }
  }

  lemma Twelve()
    ensures CommonDays(12) == 365
  {
    assert CommonDays(4) == 120;
    assert CommonDays(8) == 243;
  }

  lemma LaterDay(a: Tm, b: Tm)
    requires Valid(a) && Valid(b)
    requires a.year < b.year || (a.year == b.year && (a.mon < b.mon || (a.mon == b.mon && a.mday < b.mday)))
    ensures Day(a) < Day(b)
  {
    YdayFits(a);
    YdayFits(b);
    if a.year < b.year {
      YearsAdd(a.year, b.year);
    } else if a.mon < b.mon {
      MonthsAdd(a.mon, b.mon, a.year);
    }
  }

  /** Seconds since the Epoch order valid dates exactly as the calendar does. */
  lemma StrictlyMonotone(a: Tm, b: Tm)
    requires Valid(a) && Valid(b)
    ensures Before(a, b) <==> SecondsSinceEpoch(a) < SecondsSinceEpoch(b)
    ensures a == b <==> SecondsSinceEpoch(a) == SecondsSinceEpoch(b)
  {
    SecondsAreDaysAndTime(a);
    SecondsAreDaysAndTime(b);
    if a.year != b.year || a.mon != b.mon || a.mday != b.mday {
      if Before(a, b) { LaterDay(a, b); } else { LaterDay(b, a); }
    }
  }

  function LastSecond(): (tm: Tm)
    ensures Valid(tm) && SecondsSinceEpoch(tm) == TIME_MAX
  {
    Tm(7, 14, 3, 19, 0, 138)
  }

  lemma {:induction false} SecondsNotNegative(tm: Tm)
    requires Valid(tm)
    ensures 0 <= SecondsSinceEpoch(tm)
  {
    SecondsAreDaysAndTime(tm);
    YdayFits(tm);
    if tm.year > 70 { YearsAdd(70, tm.year); }
  }

  /** The value fits the 32-bit time_t exactly up to 03:14:07 on 19 January 2038. */
  lemma FitsUntil2038(tm: Tm)
    requires Valid(tm)
    ensures 0 <= SecondsSinceEpoch(tm)
    ensures SecondsSinceEpoch(tm) <= TIME_MAX <==> !Before(LastSecond(), tm)
  {
    SecondsNotNegative(tm);
    hide SecondsSinceEpoch, Valid, LastSecond, Before;
    StrictlyMonotone(LastSecond(), tm);
  }

  // ------------------------------------------------------------------ the calendar

  /** A year is a leap year if four divides its number and a hundred does not, or four hundred does. */
  lemma Gregorian(year: int)
    ensures var y := year + 1900; IsLeapYear(year) <==> y % 400 == 0 || (y % 4 == 0 && y % 100 != 0)
  {
    var y := year + 1900;
    assert y % 4 == year % 4 && y % 100 == year % 100 by { Offsets(year); }
    if y % 400 == 0 { assert y == 4 * (100 * (y / 400)); }
  }

  lemma Offsets(year: int)
    ensures (year + 1900) % 4 == year % 4 && (year + 1900) % 100 == year % 100
  {
    assert year + 1900 == year + 4 * 475 && year + 1900 == year + 100 * 19;
  }

  /** The lengths of the months: April, June, September and November have 30 days. */
  lemma MonthLengths(mon: int, year: int)
    requires 0 <= mon < 12
    ensures MonthLength(mon, year) ==
              if mon == 1 then (if IsLeapYear(year) then 29 else 28)
              else if mon in {3, 5, 8, 10} then 30 else 31
  {
  }

  /** The days of a year before each month, in closed form. */
  lemma DaysBeforeClosed(mon: int, year: int)
    requires 0 <= mon <= 12
    ensures DaysBefore(mon, year) ==
              (367 * mon + 5) / 12 - (if mon <= 1 then 0 else if IsLeapYear(year) then 1 else 2)
  {
    LeapDayAfterFebruary(mon, year);
    assert CommonDays(4) == 120;
    assert CommonDays(8) == 243;
  }

  /** The date and time one second later. */
  function Tick(tm: Tm): Tm
    requires Valid(tm)
  {
    if tm.sec < 59 then tm.(sec := tm.sec + 1)
    else if tm.min < 59 then tm.(sec := 0, min := tm.min + 1)
    else if tm.hour < 23 then tm.(sec := 0, min := 0, hour := tm.hour + 1)
    else
      var day := tm.(sec := 0, min := 0, hour := 0);
      if tm.mday < MonthLength(tm.mon, tm.year) then day.(mday := tm.mday + 1)
      else if tm.mon < 11 then day.(mday := 1, mon := tm.mon + 1)
      else day.(mday := 1, mon := 0, year := tm.year + 1)
  }

  lemma TickAdds(tm: Tm)
    requires Valid(tm)
    ensures Valid(Tick(tm)) && SecondsSinceEpoch(Tick(tm)) == SecondsSinceEpoch(tm) + 1
  {
    if tm.sec == 59 && tm.min == 59 && tm.hour == 23 { TickDay(tm); }
    SecondsAreDaysAndTime(tm);
    SecondsAreDaysAndTime(Tick(tm));
    hide SecondsSinceEpoch, YearDays, DaysBefore, MonthLength;
  }

  lemma TickDay(tm: Tm)
    requires Valid(tm) && tm.sec == 59 && tm.min == 59 && tm.hour == 23
    ensures Valid(Tick(tm)) && Day(Tick(tm)) == Day(tm) + 1 && TimeOfDay(Tick(tm)) == 0
  {
    assert DaysBefore(tm.mon + 1, tm.year) == DaysBefore(tm.mon, tm.year) + MonthLength(tm.mon, tm.year);
    if tm.mon == 11 {
      YearLength(tm.year);
      assert YearDays(70, tm.year + 1) == YearDays(70, tm.year) + DaysInYear(tm.year);
    }
    hide MonthLength, YearDays;
  }

  lemma YearLength(year: int)
    ensures DaysBefore(12, year) == DaysInYear(year)
  {
    LeapDayAfterFebruary(12, year);
    Twelve();
  }

  /** The clock starts at the Epoch and misses no second: every number of seconds is that of a date. */
  lemma {:induction false} EverySecond(n: nat) returns (tm: Tm)
    ensures Valid(tm) && SecondsSinceEpoch(tm) == n
  {
    tm := Tm(0, 0, 0, 1, 0, 70);
    if n > 0 {
      var before := EverySecond(n - 1);
      TickAdds(before);
      tm := Tick(before);
    }
  }
}
