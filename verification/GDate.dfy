// The date object of gdate.c.  It holds a day number, a day, month and year, or both, and
// works one out from the other when it is asked for; Calendar says what the forms are.  The
// macros that refuse an invalid date return without doing anything.
module GDate {
  import opened Calendar

  // the arithmetic of g_date_update_julian
  method DayNumber(day: nat, month: nat, year: nat) returns (days: int)
    requires 1 <= year
    ensures days == ToJulian(Dmy(day, month, year))
  {
    hide DaysBefore, LeapYear;
    var y: int := year - 1;
    days := y * 365;
    y := y / 4;
    days := days + y;
    y := y / 25;
    days := days - y;
    days := days + y / 4;
    days := days + (DaysBefore(month, LeapYear(year)) + day);
  }

  // the arithmetic of g_date_update_dmy
  method SplitNumber(julianDays: nat) returns (day: int, month: int, year: int)
    ensures (day, month, year) == FromJulian(julianDays)
  {
    var A := julianDays + 1721425 + 32045;
    var B := 4 * (A + 36524) / 146097 - 1;
    var C := A - 146097 * B / 4;
    var D := 4 * (C + 365) / 1461 - 1;
    var E := C - 1461 * D / 4;
    var M := (5 * (E - 1) + 2) / 153;
    month := M + 3 - 12 * (M / 10);
    day := E - (153 * M + 2) / 5;
    year := 100 * B + D - 4800 + M / 10;
  }

  class Date {
    var hasJulian: bool  // the flag julian
    var hasDmy: bool     // the flag dmy
    var julianDays: nat
    var day: nat
    var month: nat
    var year: nat

    // Each form whose flag is set is a date, and they are the same date.
    ghost predicate Consistent()
      reads this
    {
      && (hasJulian ==> 1 <= julianDays)
      && (hasDmy ==> Calendar.Valid(Dmy(day, month, year)))
      && (hasJulian && hasDmy ==> julianDays == ToJulian(Dmy(day, month, year)))
    }

    // g_date_valid
    predicate Valid()
      reads this
    {
      hasJulian || hasDmy
    }

    // the day number of the date, whichever form it is in
    ghost function Number(): int
      reads this
    {
      if hasJulian then julianDays else ToJulian(Dmy(day, month, year))
    }

    // the date as a day, month and year
    ghost function Date(): Dmy
      requires Consistent() && Valid()
      reads this
    {
      if hasDmy then Dmy(day, month, year) else Day(julianDays)
    }

    // Both describe the one date.
    lemma NumberIsDate()
      requires Consistent() && Valid()
      ensures Calendar.Valid(Date()) && 1 <= Number() && ToJulian(Date()) == Number() && Day(Number()) == Date()
    {
      hide ToJulian, Calendar.Valid;
      if hasDmy { ToJulianIsPlace(Dmy(day, month, year)); } else { NumberOfDay(julianDays); }
    }

    // g_date_new
    constructor ()
      ensures Consistent() && !Valid()
    {
      hasJulian, hasDmy, julianDays, day, month, year := false, false, 0, 0, 0, 0;
    }

    // g_date_update_julian
    method UpdateJulian()
      requires Consistent() && hasDmy && !hasJulian
      modifies this`julianDays, this`hasJulian
      ensures Consistent() && hasJulian && Number() == old(Number())
    {
      hide ToJulian;
      ToJulianIsPlace(Dmy(day, month, year));
      julianDays := DayNumber(day, month, year);
      hasJulian := true;
    }

    // g_date_update_dmy
    method UpdateDmy()
      requires Consistent() && hasJulian && !hasDmy
      modifies this`day, this`month, this`year, this`hasDmy
      ensures Consistent() && hasDmy && Number() == old(Number())
    {
      hide ToJulian, FromJulian;
      FromJulianIsDay(julianDays);
      NumberOfDay(julianDays);
      day, month, year := SplitNumber(julianDays);
      hasDmy := true;
    }

    // g_date_julian
    method Julian() returns (n: nat)
      requires Consistent()
      modifies this`julianDays, this`hasJulian
      ensures Consistent() && Valid() == old(Valid()) && Number() == old(Number())
      ensures n == if Valid() then Number() else 0
    {
      if !Valid() { return 0; }
      if !hasJulian { UpdateJulian(); }
      n := julianDays;
    }

    // g_date_day, g_date_month and g_date_year
    method DayMonthYear() returns (d: Dmy)
      requires Consistent()
      modifies this`day, this`month, this`year, this`hasDmy
      ensures Consistent() && Valid() == old(Valid()) && Number() == old(Number())
      ensures if Valid() then d == Day(Number()) && Calendar.Valid(d) else d == Dmy(0, 0, 0)
    {
      hide ToJulian;
      if !Valid() { return Dmy(0, 0, 0); }
      if !hasDmy { UpdateDmy(); }
      d := Dmy(day, month, year);
      NumberIsDate();
    }

    // g_date_weekday
    method WeekdayOf() returns (w: nat)
      requires Consistent()
      modifies this`julianDays, this`hasJulian
      ensures Consistent() && Valid() == old(Valid()) && Number() == old(Number())
      ensures w == if Valid() then DayOfWeek(Date()) else 0
    {
      hide ToJulian, DayOfWeek, Day, Calendar.Valid;
      if !Valid() { return 0; }
      if !hasJulian { UpdateJulian(); }
      NumberIsDate();
      WeekdayIs(Date());
      w := (julianDays - 1) % 7 + 1;
    }

    // g_date_set_dmy
    method SetDmy(d: nat, m: nat, y: nat)
      requires Consistent()
      modifies this
      ensures Consistent()
      ensures Calendar.Valid(Dmy(d, m, y)) ==> Valid() && Date() == Dmy(d, m, y) && Number() == ToJulian(Dmy(d, m, y))
      ensures !Calendar.Valid(Dmy(d, m, y)) ==> unchanged(this)
    {
      if !Calendar.Valid(Dmy(d, m, y)) { return; }
      hasJulian := false;
      month, day, year := m, d, y;
      hasDmy := true;
    }

    // g_date_set_julian
    method SetJulian(n: nat)
      requires Consistent()
      modifies this
      ensures Consistent()
      ensures if 1 <= n then Valid() && Number() == n else unchanged(this)
    {
      if n == 0 { return; }
      julianDays := n;
      hasJulian, hasDmy := true, false;
    }

    // g_date_set_month; g_date_set_day and g_date_set_year are alike.  A month that the rest
    // of the date does not go with leaves no date, but the fields are kept.
    method SetMonth(m: nat)
      requires Consistent()
      modifies this
      ensures Consistent()
      ensures !(1 <= m <= 12) ==> unchanged(this)
      ensures 1 <= m <= 12 ==>
                && month == m && !hasJulian && Valid() == Calendar.Valid(Dmy(day, m, year))
                && Dmy(day, 1, year) == (if old(Valid()) then old(Date()) else Dmy(old(day), 1, old(year))).(month := 1)
      ensures 1 <= m <= 12 && Valid() ==> Date() == Dmy(day, m, year)
    {
      hide ToJulian;
      if !(1 <= m < 13) { return; }
      if Valid() { NumberIsDate(); }
      if hasJulian && !hasDmy { UpdateDmy(); }
      if Valid() { NumberIsDate(); }
      hasJulian := false;
      month := m;
      hasDmy := Calendar.Valid(Dmy(day, month, year));
    }

    // g_date_add_days and g_date_subtract_days
    method AddDays(n: nat)
      requires Consistent()
      modifies this
      ensures Consistent()
      ensures if old(Valid()) then Valid() && Number() == old(Number()) + n else unchanged(this)
    {
      hide ToJulian;
      if !Valid() { return; }
      if !hasJulian { UpdateJulian(); }
      julianDays := julianDays + n;
      hasDmy := false;
    }

    method SubtractDays(n: nat)
      requires Consistent()
      modifies this
      ensures Consistent() && Valid() == old(Valid())
      ensures Valid() ==> Number() == if old(Number()) > n then old(Number()) - n else old(Number())
    {
      hide ToJulian;
      if !Valid() { return; }
      if !hasJulian { UpdateJulian(); }
      if !(julianDays > n) { return; }
      julianDays := julianDays - n;
      hasDmy := false;
    }

    // g_date_add_months
    method AddMonths(n: nat)
      requires Consistent()
      modifies this
      ensures Consistent()
      ensures if old(Valid()) then Valid() && Date() == PlusMonths(old(Date()), n) else unchanged(this)
    {
      hide ToJulian, LeapYear, Day;
      if !Valid() { return; }
      NumberIsDate();
      if !hasDmy { UpdateDmy(); }
      NumberIsDate();
      var nmonths := n + (month - 1);
      var years, months := nmonths / 12, nmonths % 12;
      month := months + 1;
      year := year + years;
      var last := DaysInMonth(month, LeapYear(year));
      if day > last { day := last; }
      hasJulian := false;
    }

    // g_date_subtract_months.  It refuses as many years as the date has; and what it makes of a
    // date that it lets through is a date exactly if that stays after the year 0.
    method SubtractMonths(n: nat)
      requires Consistent()
      modifies this
      ensures old(!Valid()) ==> unchanged(this)
      ensures old(Valid()) && old(Date()).year <= n / 12 ==> Consistent() && Valid() && Date() == old(Date())
      ensures old(Valid()) && n / 12 < old(Date()).year ==>
                && hasDmy && !hasJulian && Dmy(day, month, year) == MinusMonths(old(Date()), n)
                && (Consistent() <==> n < 12 * (old(Date()).year - 1) + old(Date()).month)
    {
      hide ToJulian, LeapYear, Day;
      if !Valid() { return; }
      NumberIsDate();
      if !hasDmy { UpdateDmy(); }
      NumberIsDate();
      var years, months := n / 12, n % 12;
      if !(year > years) { return; }
      year := year - years;
      if month > months {
        month := month - months;
      } else {
        months := months - month;
        month := 12 - months;
        year := year - 1;
      }
      var last := DaysInMonth(month, LeapYear(year));
      if day > last { day := last; }
      hasJulian := false;
    }

    // g_date_add_years
    method AddYears(n: nat)
      requires Consistent()
      modifies this
      ensures Consistent()
      ensures if old(Valid()) then Valid() && Date() == PlusMonths(old(Date()), 12 * n) else unchanged(this)
    {
      hide ToJulian;
      if !Valid() { return; }
      NumberIsDate();
      if !hasDmy { UpdateDmy(); }
      NumberIsDate();
      YearsAreMonths(Dmy(day, month, year), n);
      year := year + n;
      if month == 2 && day == 29 {
        if !LeapYear(year) { day := 28; }
      }
      hasJulian := false;
    }

    // g_date_monday_week_of_year: how many Mondays of its year are not after the date
    method MondayWeekOfYear() returns (week: nat)
      requires Consistent()
      modifies this`day, this`month, this`year, this`hasDmy
      ensures Consistent() && Valid() == old(Valid()) && Number() == old(Number())
      ensures Valid() ==>
                1 <= ToJulian(Dmy(1, 1, Date().year)) && week == Count(1, ToJulian(Dmy(1, 1, Date().year)), Number())
      ensures !Valid() ==> week == 0
    {
      hide ToJulian, LeapYear, DaysBefore, Weekday, DayOfWeek, Count, Calendar.Valid, Day;
      if !Valid() { return 0; }
      if !hasDmy { UpdateDmy(); }
      MondayWeek(Dmy(day, month, year));
      NumberIsDate();
      var first := new Date();
      first.SetDmy(1, 1, year);
      var wd := first.WeekdayOf();
      WeekdayIs(Dmy(1, 1, year));
      wd := wd - 1;
      var days := DaysBefore(month, LeapYear(year)) + day - 1;
      week := (days + wd) / 7 + if wd == 0 then 1 else 0;
    }
  }

  // g_date_compare.  It changes the form of the dates at most, and takes two rounds at most;
  // the dates may be one.
  method Compare(lhs: Date, rhs: Date) returns (r: int)
    requires lhs.Consistent() && rhs.Consistent()
    modifies lhs`julianDays, lhs`hasJulian, rhs`julianDays, rhs`hasJulian
    ensures lhs.Consistent() && rhs.Consistent()
    ensures lhs.Number() == old(lhs.Number()) && rhs.Number() == old(rhs.Number())
    ensures old(lhs.Valid() && rhs.Valid()) ==>
              && (r < 0 <==> lhs.Number() < rhs.Number())
              && (r == 0 <==> lhs.Number() == rhs.Number())
  {
    hide ToJulian;
    if !lhs.Valid() || !rhs.Valid() { return 0; }
    while true
      invariant lhs.Consistent() && rhs.Consistent() && lhs.Valid() && rhs.Valid()
      invariant lhs.Number() == old(lhs.Number()) && rhs.Number() == old(rhs.Number())
      decreases if lhs.hasJulian && rhs.hasJulian then 0 else 1
    {
      if lhs.hasJulian && rhs.hasJulian {
        return if lhs.julianDays < rhs.julianDays then -1 else if lhs.julianDays > rhs.julianDays then 1 else 0;
      } else if lhs.hasDmy && rhs.hasDmy {
        OrderIsChronological(Dmy(lhs.day, lhs.month, lhs.year), Dmy(rhs.day, rhs.month, rhs.year));
        OrderIsChronological(Dmy(rhs.day, rhs.month, rhs.year), Dmy(lhs.day, lhs.month, lhs.year));
        return if lhs.year < rhs.year then -1 else if lhs.year > rhs.year then 1
               else if lhs.month < rhs.month then -1 else if lhs.month > rhs.month then 1
               else if lhs.day < rhs.day then -1 else if lhs.day > rhs.day then 1 else 0;
      } else {
        if !lhs.hasJulian { lhs.UpdateJulian(); }
        if !rhs.hasJulian { rhs.UpdateJulian(); }
      }
    }
  }

  // whether a day falls on a weekday, as the functions below find out
  method FallsOn(d: Date, day: nat, month: nat, year: nat, w: nat) returns (b: bool)
    requires d.Consistent() && Calendar.Valid(Dmy(day, month, year))
    modifies d
    ensures d.Consistent()
    ensures b == (DayOfWeek(Dmy(day, month, year)) == w)
  {
    hide ToJulian, DayOfWeek, Day, Calendar.Valid;
    d.SetDmy(day, month, year);
    var weekday := d.WeekdayOf();
    b := weekday == w;
  }

  // g_date_monday_weeks_in_year, and with w = 7 g_date_sunday_weeks_in_year
  method WeeksInYearOf(w: nat, year: nat) returns (weeks: nat)
    requires 1 <= year && 1 <= w <= 7
    ensures 1 <= ToJulian(Dmy(1, 1, year))
    ensures weeks == Count(w, ToJulian(Dmy(1, 1, year)), ToJulian(Dmy(31, 12, year)))
  {
    hide ToJulian, Weekday, DayOfWeek, Count, LeapYear, Calendar.Valid, Day;
    YearEnds(year);
    WeeksInYearIsCount(w, year);
    WeekdayIs(Dmy(1, 1, year));
    WeekdayIs(Dmy(2, 1, year));
    WeekdayIs(Dmy(30, 12, year));
    WeekdayIs(Dmy(31, 12, year));
    var d := new Date();
    var b := FallsOn(d, 1, 1, year, w);
    if b { return 53; }
    b := FallsOn(d, 31, 12, year, w);
    if b { return 53; }
    if LeapYear(year) {
      b := FallsOn(d, 2, 1, year, w);
      if b { return 53; }
      b := FallsOn(d, 30, 12, year, w);
      if b { return 53; }
    }
    return 52;
  }
}
