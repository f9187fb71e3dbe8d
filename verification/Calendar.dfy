// The calendar arithmetic of gdate.c on values: the closed forms that turn a date into a day
// number and back, against the Gregorian calendar as a succession of days.  GDate has the
// object that holds one form or both.
//
// Years and day numbers are unbounded here; in the C code a year has 16 bits.
module Calendar {

  datatype Dmy = Dmy(day: nat, month: nat, year: nat)

  // g_date_is_leap_year; the year 0 is refused
  predicate LeapYear(y: nat) { y > 0 && ((y % 4 == 0 && y % 100 != 0) || y % 400 == 0) }

  // days_in_months and days_in_year
  function DaysInMonth(m: nat, leap: bool): nat {
    if m == 2 then (if leap then 29 else 28)
    else if m in {4, 6, 9, 11} then 30
    else if 1 <= m <= 12 then 31
    else 0
  }

  function DaysBefore(m: nat, leap: bool): nat {
    var n := if m == 1 then 0 else if m == 2 then 31 else if m == 3 then 59 else if m == 4 then 90 else if m == 5 then 120
             else if m == 6 then 151 else if m == 7 then 181 else if m == 8 then 212 else if m == 9 then 243
             else if m == 10 then 273 else if m == 11 then 304 else if m == 12 then 334 else 0;
    if leap && m > 2 then n + 1 else n
  }

  // g_date_valid_dmy
  predicate Valid(d: Dmy) {
    1 <= d.month <= 12 && 1 <= d.day && 1 <= d.year && d.day <= DaysInMonth(d.month, LeapYear(d.year))
  }

  // the closed form of g_date_update_julian
  function ToJulian(d: Dmy): int {
    var year := d.year - 1;
    year * 365 + year / 4 - year / 4 / 25 + year / 4 / 25 / 4 + DaysBefore(d.month, LeapYear(d.year)) + d.day
  }

  // the closed form of g_date_update_dmy
  function FromJulian(n: nat): (int, int, int) {
    var A := n + 1721425 + 32045;
    var B := 4 * (A + 36524) / 146097 - 1;
    var C := A - 146097 * B / 4;
    var D := 4 * (C + 365) / 1461 - 1;
    var E := C - 1461 * D / 4;
    var M := (5 * (E - 1) + 2) / 153;
    (E - (153 * M + 2) / 5, M + 3 - 12 * (M / 10), 100 * B + D - 4800 + M / 10)
  }

  // ----- the calendar -----

  // the day after
  function Next(d: Dmy): (r: Dmy)
    requires Valid(d)
    ensures Valid(r)
  {
    if d.day < DaysInMonth(d.month, LeapYear(d.year)) then d.(day := d.day + 1)
    else if d.month < 12 then Dmy(1, d.month + 1, d.year)
    else Dmy(1, 1, d.year + 1)
  }

  // Day 1 is the first day of the year 1.
  function Day(n: nat): (d: Dmy)
    requires 1 <= n
    ensures Valid(d)
    decreases n
  {
    if n == 1 then Dmy(1, 1, 1) else Next(Day(n - 1))
  }

  // ----- the way there -----

  function DaysBeforeYear(y: int): int { 365 * y + y / 4 - y / 100 + y / 400 }

  function Leap(y: nat): int { if LeapYear(y) then 1 else 0 }

  lemma Fours(y: nat)
    requires 1 <= y
    ensures y / 4 == (y - 1) / 4 + if y % 4 == 0 then 1 else 0
  {
  }

  lemma Hundreds(y: nat)
    requires 1 <= y
    ensures y / 100 == (y - 1) / 100 + if y % 100 == 0 then 1 else 0
  {
  }

  lemma FourHundreds(y: nat)
    requires 1 <= y
    ensures y / 400 == (y - 1) / 400 + if y % 400 == 0 then 1 else 0
  {
  }

  lemma Divides(y: nat)
    ensures y % 400 == 0 ==> y % 100 == 0
    ensures y % 100 == 0 ==> y % 4 == 0
  {
    if y % 400 == 0 {
      var k := y / 400;
      assert y == 100 * (4 * k);
    }
    if y % 100 == 0 {
      var k := y / 100;
      assert y == 4 * (25 * k);
    }
  }

  lemma LeapCount(y: nat)
    requires 1 <= y
    ensures DaysBeforeYear(y) == DaysBeforeYear(y - 1) + 365 + Leap(y)
  {
    Fours(y);
    Hundreds(y);
    FourHundreds(y);
    Divides(y);
  }

  lemma ToJulianIs(d: Dmy)
    requires 1 <= d.year
    ensures ToJulian(d) == DaysBeforeYear(d.year - 1) + DaysBefore(d.month, LeapYear(d.year)) + d.day
  {
    hide LeapYear, DaysBefore;
    var y := d.year - 1;
    assert y / 4 / 25 == y / 100 && y / 4 / 25 / 4 == y / 400;
  }

  lemma NextIsOneMore(d: Dmy)
    requires Valid(d)
    ensures ToJulian(Next(d)) == ToJulian(d) + 1
  {
    hide ToJulian, LeapYear, DaysBeforeYear;
    ToJulianIs(d);
    ToJulianIs(Next(d));
    LeapCount(d.year);
  }

  lemma {:induction false} NumberOfDay(n: nat)
    requires 1 <= n
    ensures ToJulian(Day(n)) == n
    decreases n
  {
    if n > 1 {
      NumberOfDay(n - 1);
      NextIsOneMore(Day(n - 1));
    }
  }

  // ----- and back -----

  // The closed form counts years from March, so that the day a leap year adds is the last.
  function MarchYear(d: Dmy): int { d.year + 4800 - if d.month <= 2 then 1 else 0 }
  function MarchMonth(d: Dmy): int { if d.month <= 2 then d.month + 9 else d.month - 3 }
  function DayOfMarchYear(d: Dmy): int { d.day + (153 * MarchMonth(d) + 2) / 5 }

  lemma Shifted(y: nat)
    ensures DaysBeforeYear(y + 4800) == DaysBeforeYear(y) + 1753164
  {
    assert (y + 4800) / 4 == y / 4 + 1200 && (y + 4800) / 100 == y / 100 + 48 && (y + 4800) / 400 == y / 400 + 12;
  }

  lemma MonthTable(m: nat, leap: bool)
    requires 1 <= m <= 12
    ensures DaysBefore(m, leap) == if m <= 2 then (153 * (m + 9) + 2) / 5 - 306
                                   else (153 * (m - 3) + 2) / 5 + 59 + if leap then 1 else 0
  {
  }

  lemma MarchForm(d: Dmy)
    requires Valid(d)
    ensures ToJulian(d) + 1753470 == DaysBeforeYear(MarchYear(d)) + DayOfMarchYear(d)
  {
    hide ToJulian, LeapYear, DaysBeforeYear, DaysBefore;
    ToJulianIs(d);
    LeapCount(d.year);
    Shifted(d.year);
    Shifted(d.year - 1);
    MonthTable(d.month, LeapYear(d.year));
  }

  lemma MarchRange(d: Dmy)
    requires Valid(d)
    ensures 0 <= MarchMonth(d) <= 11 && 1 <= DayOfMarchYear(d) <= 366
    ensures DayOfMarchYear(d) == 366 ==> LeapYear(MarchYear(d) + 1)
    ensures (5 * (DayOfMarchYear(d) - 1) + 2) / 153 == MarchMonth(d)
  {
    hide LeapYear;
    MonthRange(d);
    if DayOfMarchYear(d) == 366 { SameCycle(d.year); }
  }

  lemma MonthRange(d: Dmy)
    requires Valid(d)
    ensures (5 * (DayOfMarchYear(d) - 1) + 2) / 153 == MarchMonth(d)
    ensures DayOfMarchYear(d) == 366 ==> d.month == 2 && LeapYear(d.year)
  {
    hide LeapYear;
  }

  lemma SameCycle(y: nat)
    requires 1 <= y
    ensures LeapYear(y + 4800) == LeapYear(y)
  {
    assert (y + 4800) % 4 == y % 4;
    assert (y + 4800) % 100 == y % 100;
    assert (y + 4800) % 400 == y % 400;
  }

  // the day of the century
  lemma DayOfCentury(q: nat, r: nat, e: int)
    requires r <= 99 && 1 <= e <= 366 && (e == 366 ==> LeapYear(100 * q + r + 1))
    ensures var C := 365 * r + r / 4 + e; 1 <= C <= 36525 && (C == 36525 ==> q % 4 == 3)
    ensures DaysBeforeYear(100 * q + r) == 36524 * q + q / 4 + 365 * r + r / 4
  {
    var y := 100 * q + r;
    assert y / 4 == 25 * q + r / 4 && y / 100 == q && y / 400 == q / 4;
  }

  // the century, and what is left
  lemma Centuries(q: nat, C: int)
    requires 1 <= C <= 36525 && (C == 36525 ==> q % 4 == 3)
    ensures var A := 36524 * q + q / 4 + C;
            4 * (A + 36524) / 146097 - 1 == q && A - 146097 * q / 4 == C
  {
    var a, b := q / 4, q % 4;
    assert 146097 * q / 4 == 36524 * q + a;
    assert 4 * (36524 * q + a + C + 36524) == 146097 * (q + 1) + (4 * C - b - 1);
  }

  lemma YearsInCentury(r: nat, e: int)
    requires r <= 99 && 1 <= e <= 366 && (e == 366 ==> r % 4 == 3)
    ensures var C := 365 * r + r / 4 + e;
            && 4 * (C + 365) / 1461 - 1 == r
            && C - 1461 * r / 4 == e
  {
  }

  // the closed form, given what its variables B, D, E and M come to
  lemma FromParts(n: nat, q: int, r: int, e: int, m: int)
    requires var A := n + 1753470;
             && 4 * (A + 36524) / 146097 - 1 == q
             && var C := A - 146097 * q / 4;
                && 4 * (C + 365) / 1461 - 1 == r
                && C - 1461 * r / 4 == e
                && (5 * (e - 1) + 2) / 153 == m
    ensures FromJulian(n) == (e - (153 * m + 2) / 5, m + 3 - 12 * (m / 10), 100 * q + r - 4800 + m / 10)
  {
  }

  lemma MarchBack(d: Dmy)
    requires Valid(d)
    ensures var m := MarchMonth(d);
            && DayOfMarchYear(d) - (153 * m + 2) / 5 == d.day
            && m + 3 - 12 * (m / 10) == d.month
            && MarchYear(d) - 4800 + m / 10 == d.year
  {
  }

  // The closed forms are inverse to each other.
  lemma BackFrom(d: Dmy)
    requires Valid(d)
    ensures 1 <= ToJulian(d)
    ensures FromJulian(ToJulian(d)) == (d.day as int, d.month as int, d.year as int)
  {
    hide ToJulian, FromJulian, LeapYear, DaysBeforeYear, DayOfMarchYear, MarchMonth, Valid;
    MarchForm(d);
    MarchRange(d);
    MarchBack(d);
    Positive(d);
    MarchYearPositive(d);
    var yy, e := MarchYear(d), DayOfMarchYear(d);
    var q, r := yy / 100, yy % 100;
    DayOfCentury(q, r, e);
    Centuries(q, 365 * r + r / 4 + e);
    LastDay(q, r, e);
    YearsInCentury(r, e);
    FromParts(ToJulian(d), q, r, e, MarchMonth(d));
  }

  lemma MarchYearPositive(d: Dmy)
    requires Valid(d)
    ensures 4800 <= MarchYear(d)
  {
  }

  lemma LastDay(q: nat, r: nat, e: int)
    requires e == 366 ==> LeapYear(100 * q + r + 1)
    ensures e == 366 ==> r % 4 == 3
  {
  }

  lemma Positive(d: Dmy)
    requires Valid(d)
    ensures 1 <= ToJulian(d)
  {
    hide LeapYear, DaysBefore;
    ToJulianIs(d);
    var y := d.year - 1;
    assert y / 4 >= y / 100;
    assert DaysBefore(d.month, LeapYear(d.year)) >= 0;
  }

  // The day number of a date is its place in the succession of days, and the other way round.
  lemma FromJulianIsDay(n: nat)
    requires 1 <= n
    ensures var d := Day(n); FromJulian(n) == (d.day as int, d.month as int, d.year as int)
  {
    hide FromJulian, ToJulian, Valid;
    NumberOfDay(n);
    BackFrom(Day(n));
  }

  lemma ToJulianIsPlace(d: Dmy)
    requires Valid(d)
    ensures 1 <= ToJulian(d) && Day(ToJulian(d)) == d
  {
    hide FromJulian, ToJulian, Valid;
    BackFrom(d);
    FromJulianIsDay(ToJulian(d));
  }

  // ----- order -----

  // the comparison of g_date_compare on year, month and day
  predicate Earlier(d: Dmy, e: Dmy) {
    d.year < e.year || (d.year == e.year && (d.month < e.month || (d.month == e.month && d.day < e.day)))
  }

  lemma {:induction false} DaysGoOn(m: nat, n: nat)
    requires 1 <= m < n
    ensures Earlier(Day(m), Day(n))
    decreases n
  {
    hide LeapYear;
    if m < n - 1 { DaysGoOn(m, n - 1); }
  }

  // The order of the dates is the order of the day numbers.
  lemma OrderIsChronological(d: Dmy, e: Dmy)
    requires Valid(d) && Valid(e)
    ensures Earlier(d, e) <==> ToJulian(d) < ToJulian(e)
    ensures d == e <==> ToJulian(d) == ToJulian(e)
  {
    hide ToJulian, Valid;
    ToJulianIsPlace(d);
    ToJulianIsPlace(e);
    if ToJulian(d) < ToJulian(e) {
      DaysGoOn(ToJulian(d), ToJulian(e));
    } else if ToJulian(e) < ToJulian(d) {
      DaysGoOn(ToJulian(e), ToJulian(d));
    }
  }

  // ----- weeks -----

  // g_date_weekday: 1 is Monday
  function Weekday(n: nat): nat
    requires 1 <= n
  {
    (n - 1) % 7 + 1
  }

  // The day of the week from the date alone, by Zeller's congruence: January and February are
  // counted as months of the year before.
  function DayOfWeek(d: Dmy): (w: nat)
    requires 1 <= d.year
    ensures 1 <= w <= 7
  {
    var (m, y) := if d.month <= 2 then (d.month + 12, d.year - 1) else (d.month, d.year);
    (d.day + 13 * (m + 1) / 5 + y + y / 4 - y / 100 + y / 400 + 5) % 7 + 1
  }

  // 1 January 2000 was a Saturday, and 15 October 1582 a Friday.
  lemma KnownDays()
    ensures DayOfWeek(Dmy(1, 1, 2000)) == 6 && DayOfWeek(Dmy(15, 10, 1582)) == 5
  {
  }

  // days up to the beginning of the month, counted from 1 January of that year or the next
  function ShiftedBefore(m: nat): int
    requires 3 <= m <= 14
  {
    if m == 13 then 0 else if m == 14 then 31 else DaysBefore(m, false) - 365
  }

  lemma ShiftedMonth(m: nat)
    requires 3 <= m <= 14
    ensures (ShiftedBefore(m) - 1 - 13 * (m + 1) / 5 - 5) % 7 == 0
  {
  }

  // The weekday computed from the day number is that of the date.
  lemma WeekdayIs(d: Dmy)
    requires Valid(d)
    ensures 1 <= ToJulian(d) && Weekday(ToJulian(d)) == DayOfWeek(d)
  {
    hide ToJulian, DaysBefore, Day, ShiftedBefore;
    ToJulianIsPlace(d);
    ToJulianIs(d);
    LeapCount(d.year);
    var (m, y) := if d.month <= 2 then (d.month + 12, d.year - 1) else (d.month, d.year);
    ShiftedMonth(m);
    var s := y / 4 - y / 100 + y / 400;
    assert ToJulian(d) == 365 * y + s + ShiftedBefore(m) + d.day by { ShiftedIs(d, m, y); }
    SameRemainder(y, s + ShiftedBefore(m) + d.day - 1, d.day + 13 * (m + 1) / 5 + y + s + 5);
  }

  lemma ShiftedIs(d: Dmy, m: nat, y: nat)
    requires Valid(d) && (m, y) == if d.month <= 2 then (d.month + 12, d.year - 1) else (d.month, d.year)
    ensures DaysBeforeYear(d.year - 1) + DaysBefore(d.month, LeapYear(d.year)) == DaysBeforeYear(y) + ShiftedBefore(m)
  {
    hide LeapYear, DaysBeforeYear;
    LeapCount(d.year);
  }

  lemma SameRemainder(y: nat, a: int, b: int)
    requires (a + y - b) % 7 == 0
    ensures (365 * y + a) % 7 == b % 7
  {
    var k, q, r := (a + y - b) / 7, b / 7, b % 7;
    Remainder(365 * y + a, 52 * y + k + q, r);
  }

  lemma Remainder(x: int, q: int, r: nat)
    requires r < 7 && x == 7 * q + r
    ensures x % 7 == r
  {
  }

  // how many of the days from first to n fall on weekday w
  function Count(w: nat, first: nat, n: nat): nat
    requires 1 <= first
    decreases n
  {
    if n < first then 0 else Count(w, first, n - 1) + if DayOfWeek(Day(n)) == w then 1 else 0
  }

  // the closed form of g_date_monday_week_of_year and g_date_sunday_week_of_year; wd is how
  // many days after w the year begins
  function Week(day: nat, wd: nat): nat { (day + wd) / 7 + if wd == 0 then 1 else 0 }

  lemma {:induction false} WeekIsCount(w: nat, first: nat, n: nat, wd: nat)
    requires 1 <= first <= n && 1 <= w <= 7 && wd < 7
    requires Weekday(first) == w + wd || Weekday(first) + 7 == w + wd
    ensures Week(n - first, wd) == Count(w, first, n)
    decreases n
  {
    hide Day, DayOfWeek, Weekday;
    var day := n - first;
    WeekdayAfter(w, first, n, wd);
    NumberOfDay(n);
    WeekdayIs(Day(n));
    if n > first {
      WeekIsCount(w, first, n - 1, wd);
      NextWeek(day + wd);
    } else {
      assert Count(w, first, n - 1) == 0;
    }
  }

  lemma NextWeek(k: nat)
    requires 1 <= k
    ensures k / 7 == (k - 1) / 7 + if k % 7 == 0 then 1 else 0
  {
  }

  lemma WeekdayAfter(w: nat, first: nat, n: nat, wd: nat)
    requires 1 <= first <= n && 1 <= w <= 7 && wd < 7
    requires Weekday(first) == w + wd || Weekday(first) + 7 == w + wd
    ensures Weekday(n) == w <==> (n - first + wd) % 7 == 0
  {
  }

  // So the week of the year counts the Mondays of the year up to the date.
  lemma MondayWeek(d: Dmy)
    requires Valid(d)
    ensures var n, days := ToJulian(Dmy(1, 1, d.year)), DaysBefore(d.month, LeapYear(d.year)) + d.day - 1;
            && 1 <= n && Valid(Dmy(1, 1, d.year)) && 1 <= Weekday(n) && 0 <= days
            && Week(days, Weekday(n) - 1) == Count(1, n, ToJulian(d))
  {
    hide ToJulian, LeapYear, DaysBeforeYear, Weekday, Count, Day;
    var first := Dmy(1, 1, d.year);
    ToJulianIsPlace(first);
    ToJulianIs(first);
    ToJulianIs(d);
    WeekdayRange(ToJulian(first));
    WeekIsCount(1, ToJulian(first), ToJulian(d), Weekday(ToJulian(first)) - 1);
  }

  // g_date_monday_weeks_in_year and g_date_sunday_weeks_in_year
  function WeeksInYear(w: nat, y: nat): nat
    requires 1 <= y
  {
    var first := Dmy(1, 1, y);
    assert Valid(first);
    ToJulianIsPlace(first);
    var n := ToJulian(first);
    if Weekday(n) == w || Weekday(n + 364 + Leap(y)) == w || (LeapYear(y) && (Weekday(n + 1) == w || Weekday(n + 364) == w))
    then 53 else 52
  }

  lemma LastOfYear(y: nat)
    requires 1 <= y
    ensures ToJulian(Dmy(31, 12, y)) == ToJulian(Dmy(1, 1, y)) + 364 + Leap(y)
  {
    hide LeapYear, DaysBeforeYear;
    ToJulianIs(Dmy(1, 1, y));
    ToJulianIs(Dmy(31, 12, y));
  }

  // the days g_date_monday_weeks_in_year looks at
  lemma YearEnds(y: nat)
    requires 1 <= y
    ensures Valid(Dmy(1, 1, y)) && Valid(Dmy(2, 1, y)) && Valid(Dmy(30, 12, y)) && Valid(Dmy(31, 12, y))
    ensures var n := ToJulian(Dmy(1, 1, y));
            && 1 <= n
            && ToJulian(Dmy(2, 1, y)) == n + 1 && ToJulian(Dmy(31, 12, y)) == n + 364 + Leap(y)
            && ToJulian(Dmy(30, 12, y)) == n + 363 + Leap(y)
  {
    hide ToJulian, LeapYear, DaysBeforeYear;
    LastOfYear(y);
    ToJulianIs(Dmy(1, 1, y));
    ToJulianIs(Dmy(2, 1, y));
    ToJulianIs(Dmy(30, 12, y));
    ToJulianIs(Dmy(31, 12, y));
    ToJulianIsPlace(Dmy(1, 1, y));
  }

  // It is how often the weekday comes in the year.
  lemma WeeksInYearIsCount(w: nat, y: nat)
    requires 1 <= y && 1 <= w <= 7
    ensures 1 <= ToJulian(Dmy(1, 1, y))
    ensures WeeksInYear(w, y) == Count(w, ToJulian(Dmy(1, 1, y)), ToJulian(Dmy(31, 12, y)))
  {
    hide ToJulian, LeapYear, Weekday, Count, Week;
    var first := Dmy(1, 1, y);
    assert Valid(first);
    ToJulianIsPlace(first);
    LastOfYear(y);
    WeekdayRange(ToJulian(first));
    var n := ToJulian(first);
    var wd := if Weekday(n) >= w then Weekday(n) - w else Weekday(n) + 7 - w;
    WeekIsCount(w, n, n + 364 + Leap(y), wd);
    WeekdayAfter(w, n, n + 364 + Leap(y), wd);
    WeekdayAfter(w, n, n + 1, wd);
    WeekdayAfter(w, n, n + 364, wd);
    WeekdayAfter(w, n, n, wd);
    FiftyThree(wd, LeapYear(y));
  }

  lemma WeekdayRange(n: nat)
    requires 1 <= n
    ensures 1 <= Weekday(n) <= 7
  {
  }

  lemma FiftyThree(wd: nat, leap: bool)
    requires wd < 7
    ensures var last := if leap then 365 else 364;
            Week(last, wd) == if wd % 7 == 0 || (last + wd) % 7 == 0 || (leap && ((1 + wd) % 7 == 0 || (364 + wd) % 7 == 0))
                              then 53 else 52
  {
  }

  // ----- months and years -----

  function Clipped(d: Dmy): Dmy
    requires 1 <= d.month <= 12
  {
    var last := DaysInMonth(d.month, LeapYear(d.year));
    if d.day > last then d.(day := last) else d
  }

  // g_date_add_months
  function PlusMonths(d: Dmy, n: nat): (r: Dmy)
    requires Valid(d)
    ensures Valid(r)
  {
    var k := n + d.month - 1;
    Clipped(Dmy(d.day, k % 12 + 1, d.year + k / 12))
  }

  // g_date_subtract_months.  It lets a date through that ends up in the year 0, which is no
  // date.
  function MinusMonths(d: Dmy, n: nat): (r: Dmy)
    requires Valid(d) && n / 12 < d.year
    ensures Valid(r) <==> n < 12 * (d.year - 1) + d.month
  {
    var years, months := n / 12, n % 12;
    if d.month > months then Clipped(Dmy(d.day, d.month - months, d.year - years))
    else Clipped(Dmy(d.day, 12 - (months - d.month), d.year - years - 1))
  }

  // One month before the first month of the calendar.
  lemma YearZero()
    ensures Valid(Dmy(1, 1, 1)) && MinusMonths(Dmy(1, 1, 1), 1) == Dmy(1, 12, 0) && !Valid(MinusMonths(Dmy(1, 1, 1), 1))
  {
  }

  // g_date_add_years and g_date_subtract_years
  function WithYear(d: Dmy, y: nat): (r: Dmy)
    requires Valid(d) && 1 <= y
    ensures Valid(r)
  {
    Dmy(if d.month == 2 && d.day == 29 && !LeapYear(y) then 28 else d.day, d.month, y)
  }

  function MonthNumber(d: Dmy): int { 12 * d.year + d.month - 1 }

  // Both move by n months and keep the day of the month, or take the last there is.
  lemma MonthsMove(d: Dmy, n: nat)
    requires Valid(d)
    ensures var r := PlusMonths(d, n);
            && MonthNumber(r) == MonthNumber(d) + n
            && (r.day == d.day || (r.day < d.day && r.day == DaysInMonth(r.month, LeapYear(r.year))))
    ensures n / 12 < d.year ==>
              var r := MinusMonths(d, n);
              && MonthNumber(r) == MonthNumber(d) - n
              && (r.day == d.day || (r.day < d.day && r.day == DaysInMonth(r.month, LeapYear(r.year))))
  {
    hide LeapYear, Valid;
  }

  lemma SameMonth(d: Dmy, e: Dmy)
    requires Valid(d) && Valid(e) && MonthNumber(d) == MonthNumber(e)
    ensures d.month == e.month && d.year == e.year
  {
    hide LeapYear;
  }

  // Going back undoes going forward exactly if the day of the month was not cut.
  lemma MonthsThereAndBack(d: Dmy, n: nat)
    requires Valid(d)
    ensures var r := PlusMonths(d, n);
            && n / 12 < r.year && Valid(MinusMonths(r, n))
            && (MinusMonths(r, n) == d <==> d.day <= DaysInMonth(r.month, LeapYear(r.year)))
  {
    hide LeapYear, PlusMonths, MinusMonths;
    MonthsMove(d, n);
    var r := PlusMonths(d, n);
    MonthsMove(r, n);
    SameMonth(d, MinusMonths(r, n));
    assert r.day <= DaysInMonth(r.month, LeapYear(r.year)) && d.day <= DaysInMonth(d.month, LeapYear(d.year));
  }

  // Years are twelve months.
  lemma YearsAreMonths(d: Dmy, n: nat)
    requires Valid(d)
    ensures WithYear(d, d.year + n) == PlusMonths(d, 12 * n)
    ensures n < d.year ==> WithYear(d, d.year - n) == MinusMonths(d, 12 * n)
  {
    assert 12 * n / 12 == n && 12 * n % 12 == 0;
    assert (12 * n + d.month - 1) / 12 == n && (12 * n + d.month - 1) % 12 == d.month - 1;
    hide LeapYear;
  }
}
