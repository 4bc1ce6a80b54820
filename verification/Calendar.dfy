/** The proleptic Gregorian calendar behind data allowances.

    `CivilFromDays` and `DaysFromCivil` are the closed forms the program uses. `DateOf` is the
    calendar itself: it starts at 1970-01-01 and steps one day at a time. The main results say
    that the closed forms are that calendar, on every day and every date from 1970 on. */
module Calendar {
  import opened Arithmetic

  datatype Date = Date(year: nat, month: nat, day: nat)

  // ----- The calendar, one day at a time

  predicate IsLeap(year: nat) {
    year % 4 == 0 && (year % 100 != 0 || year % 400 == 0)
  }

  function DaysInMonth(year: nat, month: nat): nat {
    if month == 2 then (if IsLeap(year) then 29 else 28)
    else if month == 4 || month == 6 || month == 9 || month == 11 then 30
    else 31
  }

  predicate IsDate(d: Date) {
    1 <= d.month <= 12 && 1 <= d.day <= DaysInMonth(d.year, d.month)
  }

  function NextMonth(year: nat, month: nat): Date {
    if month == 12 then Date(year + 1, 1, 1) else Date(year, month + 1, 1)
  }

  function NextDay(d: Date): Date {
    if d.day < DaysInMonth(d.year, d.month) then d.(day := d.day + 1)
    else NextMonth(d.year, d.month)
  }

  /** The date `n` days after 1970-01-01. */
  function DateOf(n: nat): Date {
    if n == 0 then Date(1970, 1, 1) else NextDay(DateOf(n - 1))
  }

  datatype Weekday = Monday | Tuesday | Wednesday | Thursday | Friday | Saturday | Sunday

  function NextWeekday(d: Weekday): Weekday {
    match d
    case Monday => Tuesday
    case Tuesday => Wednesday
    case Wednesday => Thursday
    case Thursday => Friday
    case Friday => Saturday
    case Saturday => Sunday
    case Sunday => Monday
  }

  /** The day of the week `n` days after 1970-01-01, which was a Thursday. */
  function WeekdayOf(n: nat): Weekday {
    if n == 0 then Thursday else NextWeekday(WeekdayOf(n - 1))
  }

  // ----- The closed forms

  function CivilFromDays(days: nat): Date {
    var z := days + 719_468;
    var dayOfEra := z % 146_097;
    var yearOfEra := YearOfEra(dayOfEra);
    YearOfEraBounds(dayOfEra);
    DateInEra(z / 146_097, yearOfEra, dayOfEra - YearStart(yearOfEra))
  }

  /** Years of an era run from March, so `shiftedMonth` 0 is March and 10 is January. */
  function DateInEra(era: nat, yearOfEra: nat, dayOfYear: nat): Date
    requires dayOfYear < 366
  {
    var shiftedMonth := (5 * dayOfYear + 2) / 153;
    MonthBounds(dayOfYear);
    var day := dayOfYear - (153 * shiftedMonth + 2) / 5 + 1;
    var month := if shiftedMonth < 10 then shiftedMonth + 3 else shiftedMonth - 9;
    Date(yearOfEra + era * 400 + (if month <= 2 then 1 else 0), month, day)
  }

  function DaysFromCivil(d: Date): int
    requires IsDate(d)
  {
    var year := if d.month <= 2 then d.year - 1 else d.year;
    var shiftedMonth := if d.month > 2 then d.month - 3 else d.month + 9;
    DayInEra(year, (153 * shiftedMonth + 2) / 5 + d.day - 1)
  }

  /** The day number of the given day of the year that starts in March of `year`. */
  function DayInEra(year: int, dayOfYear: nat): int {
    year / 400 * 146_097 + YearStart(year % 400) + dayOfYear - 719_468
  }

  function YearOfEra(dayOfEra: nat): nat
    requires dayOfEra < 146_097
  {
    (dayOfEra - dayOfEra / 1_460 + dayOfEra / 36_524 - dayOfEra / 146_096) / 365
  }

  /** Days of an era before its year `y`; years run from March, so a leap day ends its year. */
  function YearStart(y: nat): nat {
    365 * y + y / 4 - y / 100
  }

  /** Splits a day of an era into centuries, four-year cycles and years of that cycle. */
  lemma YearOfEraBounds(dayOfEra: nat)
    requires dayOfEra < 146_097
    ensures var y := YearOfEra(dayOfEra);
            && y < 400
            && YearStart(y) <= dayOfEra <= YearStart(y) + (if IsLeap(y + 1) then 365 else 364)
  {
    var c, r := dayOfEra / 36_524, dayOfEra % 36_524;
    if c < 4 {
      var q, s := r / 1_461, r % 1_461;
      var e := (24 * c + q + s) / 1_460;
      var t := (s - e) / 365;
      assert dayOfEra / 1_460 == 25 * c + q + e;
      assert YearOfEra(dayOfEra) == 100 * c + 4 * q + t;
      YearStartInCycle(c, q, t);
    }
  }

  lemma YearStartInCycle(c: nat, q: nat, t: nat)
    requires q < 25 && t < 4
    ensures YearStart(100 * c + 4 * q + t) == 36_524 * c + 1_461 * q + 365 * t
    ensures c < 4 ==> (IsLeap(100 * c + 4 * q + t + 1) <==> t == 3 && (q < 24 || c == 3))
  {
    var y := 100 * c + 4 * q + t;
    assert y / 4 == 25 * c + q && y / 100 == c;
    if c < 4 {
      LeapInCycle(c, q, t);
    }
  }

  lemma LeapInCycle(c: nat, q: nat, t: nat)
    requires c < 4 && q < 25 && t < 4
    ensures IsLeap(100 * c + 4 * q + t + 1) <==> t == 3 && (q < 24 || c == 3)
  {
    var next := 100 * c + 4 * q + t + 1;
    assert next % 4 == (t + 1) % 4;
    if t == 3 {
      assert next % 100 == 0 <==> q == 24;
      assert q == 24 ==> next == 100 * (c + 1);
    }
  }

  lemma MonthBounds(dayOfYear: nat)
    requires dayOfYear < 366
    ensures var m := (5 * dayOfYear + 2) / 153;
            m < 12 && (153 * m + 2) / 5 <= dayOfYear < (153 * (m + 1) + 2) / 5
  {
  }

  // ----- The closed forms are the calendar

  /** `DaysFromCivil` counts one more for the next day, over month ends, leap days and centuries. */
  lemma NextDayCountsOne(d: Date)
    requires IsDate(d)
    ensures IsDate(NextDay(d))
    ensures DaysFromCivil(NextDay(d)) == DaysFromCivil(d) + 1
  {
    if d.month == 2 {
      hide IsLeap, YearStart;
      NewYearFollows(d.year);
    } else {
      hide YearStart;
    }
  }

  /** The years that start in March fit together, including over the end of an era. */
  lemma NewYearFollows(year: nat)
    ensures DayInEra(year, 0) == DayInEra(year - 1, if IsLeap(year) then 366 else 365)
  {
    hide IsLeap, YearStart;
    LeapInEra(year / 400, year % 400);
    if year % 400 != 0 {
      YearLength(year % 400 - 1);
      SameEra(year);
    } else {
      LastYearOfEra(year);
    }
  }

  lemma SameEra(year: nat)
    requires year % 400 != 0
    ensures (year - 1) / 400 == year / 400 && (year - 1) % 400 == year % 400 - 1
  {
  }

  lemma LastYearOfEra(year: nat)
    requires year % 400 == 0
    ensures (year - 1) / 400 == year / 400 - 1 && (year - 1) % 400 == 399
    ensures YearStart(399) == 146_097 - 366 && YearStart(0) == 0 && IsLeap(year)
  {
    ModOfSum(4, 100 * (year / 400), 0);
  }

  lemma LeapInEra(e: nat, y: nat)
    ensures IsLeap(400 * e + y) <==> IsLeap(y)
  {
    ModOfSum(4, 100 * e, y);
    ModOfSum(100, 4 * e, y);
    ModOfSum(400, e, y);
  }

  lemma YearLength(y: nat)
    requires y < 399
    ensures YearStart(y + 1) == YearStart(y) + (if IsLeap(y + 1) then 366 else 365)
  {
    assert (y + 1) / 4 == y / 4 + (if (y + 1) % 4 == 0 then 1 else 0);
    assert (y + 1) / 100 == y / 100 + (if (y + 1) % 100 == 0 then 1 else 0);
    assert (y + 1) % 100 == 0 ==> (y + 1) % 4 == 0;
  }

  lemma {:induction false} DaysOfCalendarDate(n: nat)
    ensures IsDate(DateOf(n)) && DateOf(n).year >= 1970 && DaysFromCivil(DateOf(n)) == n
  {
    hide DaysFromCivil, NextDay;
    if n == 0 {
      DaysOf1970();
    } else {
      DaysOfCalendarDate(n - 1);
      NextDayCountsOne(DateOf(n - 1));
      NextYear(DateOf(n - 1));
    }
  }

  lemma DaysOf1970()
    ensures DaysFromCivil(Date(1970, 1, 1)) == 0
  {
  }

  lemma NextYear(d: Date)
    ensures NextDay(d).year >= d.year
  {
  }

  /** Every date from 1970 on is reached by stepping from 1970-01-01, at its day number. */
  lemma {:induction false} CalendarDateOfDays(d: Date)
    requires IsDate(d) && d.year >= 1970
    ensures DaysFromCivil(d) >= 0 && DateOf(DaysFromCivil(d)) == d
    decreases d.year, d.month, d.day
  {
    hide DaysFromCivil, NextDay;
    if d == Date(1970, 1, 1) {
      DaysOf1970();
    } else {
      var p := PreviousDay(d);
      CalendarDateOfDays(p);
      NextDayCountsOne(p);
    }
  }

  function PreviousDay(d: Date): (p: Date)
    requires IsDate(d) && d.year >= 1970 && d != Date(1970, 1, 1)
    ensures IsDate(p) && p.year >= 1970 && NextDay(p) == d
  {
    if d.day > 1 then d.(day := d.day - 1)
    else if d.month > 1 then Date(d.year, d.month - 1, DaysInMonth(d.year, d.month - 1))
    else Date(d.year - 1, 12, 31)
  }

  lemma CivilRoundTrip(days: nat)
    ensures var d := CivilFromDays(days); IsDate(d) && d.year >= 1970 && DaysFromCivil(d) == days
  {
    hide YearOfEra, YearStart, IsLeap, DateInEra, DaysFromCivil, IsDate;
    var z := days + 719_468;
    var y := YearOfEra(z % 146_097);
    YearOfEraBounds(z % 146_097);
    DaysOfDateInEra(z / 146_097, y, z % 146_097 - YearStart(y));
    if CivilFromDays(days).year < 1970 { DaysBefore1970(CivilFromDays(days)); }
  }

  lemma DaysOfDateInEra(e: nat, y: nat, dayOfYear: nat)
    requires y < 400 && dayOfYear <= (if IsLeap(y + 1) then 365 else 364)
    ensures IsDate(DateInEra(e, y, dayOfYear))
    ensures DaysFromCivil(DateInEra(e, y, dayOfYear)) == e * 146_097 + YearStart(y) + dayOfYear - 719_468
  {
    MonthBounds(dayOfYear);
    LeapInEra(e, y + 1);
    assert (y + e * 400) / 400 == e && (y + e * 400) % 400 == y;
  }

  lemma DaysBefore1970(d: Date)
    requires IsDate(d) && d.year < 1970
    ensures DaysFromCivil(d) < 0
  {
    var year := if d.month <= 2 then d.year - 1 else d.year;
    var y := year % 400;
    assert YearStart(y) <= 365 * y + y / 4;
  }

  /** `CivilFromDays` is the calendar, on every day; `DaysFromCivil` is its two-sided inverse. */
  lemma CivilIsCalendar(days: nat)
    ensures CivilFromDays(days) == DateOf(days)
    ensures IsDate(CivilFromDays(days)) && DaysFromCivil(CivilFromDays(days)) == days
  {
    CivilRoundTrip(days);
    CalendarDateOfDays(CivilFromDays(days));
  }

  lemma {:induction false} MondaysAreSevenApart(n: nat)
    ensures WeekdayOf(n) == [Thursday, Friday, Saturday, Sunday, Monday, Tuesday, Wednesday][n % 7]
    ensures WeekdayOf(n) == Monday <==> n % 7 == 4
  {
    if n > 0 {
      MondaysAreSevenApart(n - 1);
      assert n % 7 == if (n - 1) % 7 == 6 then 0 else (n - 1) % 7 + 1;
    }
  }

  lemma CivilInvertsDays(d: Date)
    requires IsDate(d) && d.year >= 1970
    ensures DaysFromCivil(d) >= 0 && CivilFromDays(DaysFromCivil(d)) == d
  {
    CalendarDateOfDays(d);
    CivilIsCalendar(DaysFromCivil(d));
  }
}
