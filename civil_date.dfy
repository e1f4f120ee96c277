/** Calendar days as (year, month0, day) triples, the proleptic Gregorian
    calendar the JavaScript `Date` object uses, and the day arithmetic of
    `new Date(year, monthIndex, day)`. Time of day, time zones and daylight
    saving are not modelled: every date here is local midnight. */
module CivilDate {

  /** A calendar day; `month0` is zero-based as in `Date.prototype.getMonth`. */
  datatype Date = Date(year: int, month0: int, day: int)

  predicate IsLeapYear(y: int) {
    y % 4 == 0 && (y % 100 != 0 || y % 400 == 0)
  }

  function DaysInMonth(y: int, m0: int): (n: int)
    requires 0 <= m0 < 12
    ensures 28 <= n <= 31
    ensures n == 29 <==> m0 == 1 && IsLeapYear(y)
  {
    if m0 == 1 then (if IsLeapYear(y) then 29 else 28)
    else if m0 == 3 || m0 == 5 || m0 == 8 || m0 == 10 then 30
    else 31
  }

  function DaysInYear(y: int): int {
    if IsLeapYear(y) then 366 else 365
  }

  /** A day that exists in the calendar. */
  predicate ValidDate(d: Date) {
    0 <= d.month0 < 12 && 1 <= d.day <= DaysInMonth(d.year, d.month0)
  }

  /** Calendar order: `a` is an earlier day than `b`. */
  predicate Before(a: Date, b: Date) {
    a.year < b.year
    || (a.year == b.year && a.month0 < b.month0)
    || (a.year == b.year && a.month0 == b.month0 && a.day < b.day)
  }

  /** The month after (y, m0), carrying into the year. */
  function NextMonth(y: int, m0: int): (r: (int, int))
    requires 0 <= m0 < 12
    ensures 0 <= r.1 < 12
  {
    if m0 == 11 then (y + 1, 0) else (y, m0 + 1)
  }

  /** The month before (y, m0), borrowing from the year. */
  function PrevMonth(y: int, m0: int): (r: (int, int))
    requires 0 <= m0 < 12
    ensures 0 <= r.1 < 12
  {
    if m0 == 0 then (y - 1, 11) else (y, m0 - 1)
  }

  lemma MonthSteppingInverse(y: int, m0: int)
    requires 0 <= m0 < 12
    ensures PrevMonth(NextMonth(y, m0).0, NextMonth(y, m0).1) == (y, m0)
    ensures NextMonth(PrevMonth(y, m0).0, PrevMonth(y, m0).1) == (y, m0)
  {
  }

  // ---------------------------------------------------------------------
  // Day numbers: the number of days since 1 January of year 0. Timestamps of
  // local midnights are this count times 86,400,000 plus a constant offset.
  // ---------------------------------------------------------------------

  function DaysBeforeYear(y: int): int {
    365 * y + (y + 3) / 4 - (y + 99) / 100 + (y + 399) / 400
  }

  function DaysBeforeMonth(y: int, m0: int): int
    requires 0 <= m0 <= 12
  {
    if m0 == 0 then 0 else DaysBeforeMonth(y, m0 - 1) + DaysInMonth(y, m0 - 1)
  }

  function DayNumber(d: Date): int
    requires 0 <= d.month0 < 12
  {
    DaysBeforeYear(d.year) + DaysBeforeMonth(d.year, d.month0) + d.day - 1
  }

  /** `getDay()`: 0 is Sunday. 1 January of year 0 was a Saturday. */
  function Weekday(d: Date): (w: int)
    requires 0 <= d.month0 < 12
    ensures 0 <= w < 7
  {
    (DayNumber(d) + 6) % 7
  }

  lemma WeekdayExamples()
    ensures Weekday(Date(1970, 0, 1)) == 4   // a Thursday
    ensures Weekday(Date(2025, 9, 1)) == 3   // a Wednesday
    ensures Weekday(Date(2000, 1, 29)) == 2  // a Tuesday
  {
  }

  lemma QuadrennialStep(y: int)
    ensures (y + 4) / 4 - (y + 3) / 4 == if y % 4 == 0 then 1 else 0
  {
  }

  lemma CentennialStep(y: int)
    ensures (y + 100) / 100 - (y + 99) / 100 == if y % 100 == 0 then 1 else 0
  {
  }

  lemma QuadricentennialStep(y: int)
    ensures (y + 400) / 400 - (y + 399) / 400 == if y % 400 == 0 then 1 else 0
  {
  }

  /** Each year adds its own length to the day count. */
  lemma DaysBeforeNextYear(y: int)
    ensures DaysBeforeYear(y + 1) == DaysBeforeYear(y) + DaysInYear(y)
  {
    QuadrennialStep(y);
    CentennialStep(y);
    QuadricentennialStep(y);
    if y % 400 == 0 {
      CenturyOfFourCenturies(y);
      QuadrennialOfCentury(y);
    } else if y % 100 == 0 {
      QuadrennialOfCentury(y);
    }
  }

  lemma QuadrennialOfCentury(y: int)
    requires y % 100 == 0
    ensures y % 4 == 0
  {
    var k := y / 100;
    assert y == 4 * (25 * k);
  }

  lemma CenturyOfFourCenturies(y: int)
    requires y % 400 == 0
    ensures y % 100 == 0
  {
    var k := y / 400;
    assert y == 100 * (4 * k);
  }

  lemma DaysBeforeMonthYear(y: int)
    ensures DaysBeforeMonth(y, 12) == DaysInYear(y)
  {
    var feb := DaysInMonth(y, 1);
    assert DaysBeforeMonth(y, 1) == 31;
    assert DaysBeforeMonth(y, 2) == 31 + feb;
    assert DaysBeforeMonth(y, 3) == 62 + feb;
    assert DaysBeforeMonth(y, 4) == 92 + feb;
    assert DaysBeforeMonth(y, 5) == 123 + feb;
    assert DaysBeforeMonth(y, 6) == 153 + feb;
    assert DaysBeforeMonth(y, 7) == 184 + feb;
    assert DaysBeforeMonth(y, 8) == 215 + feb;
    assert DaysBeforeMonth(y, 9) == 245 + feb;
    assert DaysBeforeMonth(y, 10) == 276 + feb;
    assert DaysBeforeMonth(y, 11) == 306 + feb;
    assert DaysBeforeMonth(y, 12) == 337 + feb;
  }

  lemma {:induction false} DaysBeforeMonthMonotone(y: int, m: int, m': int)
    requires 0 <= m <= m' <= 12
    ensures DaysBeforeMonth(y, m) <= DaysBeforeMonth(y, m')
  {
    if m < m' {
      DaysBeforeMonthMonotone(y, m, m' - 1);
    }
  }

  lemma {:induction false} DaysBeforeYearMonotone(y: int, y': int)
    requires y < y'
    ensures DaysBeforeYear(y) + DaysInYear(y) <= DaysBeforeYear(y')
    decreases y' - y
  {
    DaysBeforeNextYear(y);
    if y + 1 < y' {
      DaysBeforeYearMonotone(y + 1, y');
    }
  }

  /** The first day of the next month comes DaysInMonth days after the first
      day of this month. */
  lemma NextMonthDayNumber(y: int, m0: int)
    requires 0 <= m0 < 12
    ensures DayNumber(Date(NextMonth(y, m0).0, NextMonth(y, m0).1, 1))
         == DayNumber(Date(y, m0, 1)) + DaysInMonth(y, m0)
  {
    if m0 == 11 {
      DaysBeforeNextYear(y);
      DaysBeforeMonthYear(y);
    }
  }

  /** A calendar month grid continues the weekday column where the previous
      month's grid stopped. */
  lemma NextMonthWeekday(y: int, m0: int)
    requires 0 <= m0 < 12
    ensures Weekday(Date(NextMonth(y, m0).0, NextMonth(y, m0).1, 1))
         == (Weekday(Date(y, m0, 1)) + DaysInMonth(y, m0)) % 7
  {
    NextMonthDayNumber(y, m0);
    ModShift(DayNumber(Date(y, m0, 1)) + 6, DaysInMonth(y, m0));
  }

  /** Adding to a remainder modulo 7 is adding to the number itself. */
  lemma ModShift(a: int, b: int)
    ensures (a % 7 + b) % 7 == (a + b) % 7
  {
    var q := a / 7;
    assert a == 7 * q + a % 7;
    SubtractMultiple(a + b, q);
  }

  lemma SubtractMultiple(x: int, q: int)
    ensures (x - 7 * q) % 7 == x % 7
  {
    var r := x % 7;
    var p := x / 7;
    assert x - 7 * q == 7 * (p - q) + r;
  }

  lemma DayNumberWithinYear(d: Date)
    requires ValidDate(d)
    ensures DaysBeforeYear(d.year) <= DayNumber(d) < DaysBeforeYear(d.year) + DaysInYear(d.year)
  {
    DaysBeforeMonthMonotone(d.year, 0, d.month0);
    DaysBeforeMonthMonotone(d.year, d.month0 + 1, 12);
    assert DaysBeforeMonth(d.year, d.month0 + 1)
        == DaysBeforeMonth(d.year, d.month0) + DaysInMonth(d.year, d.month0);
    DaysBeforeMonthYear(d.year);
  }

  /** Calendar order is the order of day numbers, hence of the timestamps
      the source compares with `<` and `>`. */
  lemma BeforeIsDayNumberOrder(a: Date, b: Date)
    requires ValidDate(a) && ValidDate(b)
    ensures Before(a, b) <==> DayNumber(a) < DayNumber(b)
    ensures a == b <==> DayNumber(a) == DayNumber(b)
  {
    DayNumberWithinYear(a);
    DayNumberWithinYear(b);
    if a.year < b.year {
      DaysBeforeYearMonotone(a.year, b.year);
    } else if b.year < a.year {
      DaysBeforeYearMonotone(b.year, a.year);
    } else if a.month0 < b.month0 {
      DaysBeforeMonthMonotone(a.year, a.month0 + 1, b.month0);
    } else if b.month0 < a.month0 {
      DaysBeforeMonthMonotone(a.year, b.month0 + 1, a.month0);
    }
  }

  // ---------------------------------------------------------------------
  // new Date(year, monthIndex, day)
  // ---------------------------------------------------------------------

  /** The Date constructor reads a year argument in 0..99 as 1900 + year. */
  function ConstructorYear(y: int): int {
    if 0 <= y <= 99 then 1900 + y else y
  }

  /** Moves a day number that falls outside month (y, m0) into the month it
      belongs to, as `MakeDay` does for an out-of-range day argument. */
  function Normalize(y: int, m0: int, d: int): (r: Date)
    requires 0 <= m0 < 12
    ensures ValidDate(r)
    decreases if d < 1 then 1 else 0, if d < 1 then 1 - d else d
  {
    if d < 1 then
      var p := PrevMonth(y, m0);
      Normalize(p.0, p.1, d + DaysInMonth(p.0, p.1))
    else if d > DaysInMonth(y, m0) then
      var n := NextMonth(y, m0);
      Normalize(n.0, n.1, d - DaysInMonth(y, m0))
    else
      Date(y, m0, d)
  }

  /** `new Date(y, m, d)` at local midnight, as a calendar day. */
  function MakeDate(y: int, m: int, d: int): (r: Date)
    ensures ValidDate(r)
  {
    Normalize(ConstructorYear(y) + m / 12, m % 12, d)
  }

  /** `new Date(d.getFullYear(), d.getMonth(), d.getDate())`: the day
      rebuilt from its own fields, as the `strip` helpers do before comparing
      days. It moves a day of years 0..99 into 1900..1999. */
  function Strip(d: Date): (r: Date)
    ensures ValidDate(r)
  {
    MakeDate(d.year, d.month0, d.day)
  }

  /** Rebuilding an existing day outside years 0..99 gives the same day. */
  lemma StripIdentity(d: Date)
    requires ValidDate(d) && !(0 <= d.year <= 99)
    ensures Strip(d) == d
  {
    MakeDateIdentity(d);
  }

  /** Normalize lands `d - 1` days after the first of the month it started from. */
  lemma {:induction false} NormalizeDayNumber(y: int, m0: int, d: int)
    requires 0 <= m0 < 12
    ensures DayNumber(Normalize(y, m0, d)) == DayNumber(Date(y, m0, 1)) + d - 1
    decreases if d < 1 then 1 else 0, if d < 1 then 1 - d else d
  {
    if d < 1 {
      var p := PrevMonth(y, m0);
      NormalizeDayNumber(p.0, p.1, d + DaysInMonth(p.0, p.1));
      NextMonthDayNumber(p.0, p.1);
      MonthSteppingInverse(y, m0);
    } else if d > DaysInMonth(y, m0) {
      var n := NextMonth(y, m0);
      NormalizeDayNumber(n.0, n.1, d - DaysInMonth(y, m0));
      NextMonthDayNumber(y, m0);
    }
  }

  /** The Date constructor counts `d - 1` days from the first of month `m`
      of the (two-digit-adjusted) year, carrying months into years. */
  lemma MakeDateDayNumber(y: int, m: int, d: int)
    ensures DayNumber(MakeDate(y, m, d))
         == DayNumber(Date(ConstructorYear(y) + m / 12, m % 12, 1)) + d - 1
  {
    NormalizeDayNumber(ConstructorYear(y) + m / 12, m % 12, d);
  }

  /** An existing day outside years 0..99 is constructed unchanged. */
  lemma MakeDateIdentity(d: Date)
    requires ValidDate(d) && !(0 <= d.year <= 99)
    ensures MakeDate(d.year, d.month0, d.day) == d
  {
  }

  /** `new Date(y, m, d)` for a month index in 0..11 and a day of that month. */
  lemma MakeDateInMonth(y: int, m0: int, d: int)
    requires 0 <= m0 < 12 && 1 <= d <= DaysInMonth(ConstructorYear(y), m0)
    ensures MakeDate(y, m0, d) == Date(ConstructorYear(y), m0, d)
  {
  }

  /** `new Date(y, m0 + 1, 0)` is the last day of month m0: its `getDate()`
      is the length of the month. */
  lemma MakeDateLastDay(y: int, m0: int)
    requires 0 <= m0 < 12
    ensures MakeDate(y, m0 + 1, 0) == Date(ConstructorYear(y), m0, DaysInMonth(ConstructorYear(y), m0))
  {
    var cy := ConstructorYear(y);
    if m0 == 11 {
      assert (m0 + 1) / 12 == 1 && (m0 + 1) % 12 == 0;
    } else {
      assert (m0 + 1) / 12 == 0 && (m0 + 1) % 12 == m0 + 1;
    }
  }
}
