/** The proleptic Gregorian calendar as Go's `time` package uses it. Days are numbered
    from 0 on Monday 1 January of year 1, the day of Go's zero time. */
module Calendar {
  datatype Date = Date(year: int, month: int, day: int)

  predicate IsLeap(year: int) {
    year % 4 == 0 && (year % 100 != 0 || year % 400 == 0)
  }

  function MonthLength(year: int, month: int): (n: int)
    requires 1 <= month <= 12
    ensures 28 <= n <= 31
  {
    if month == 2 then (if IsLeap(year) then 29 else 28)
    else if month == 4 || month == 6 || month == 9 || month == 11 then 30
    else 31
  }

  predicate Valid(d: Date) {
    1 <= d.month <= 12 && 1 <= d.day <= MonthLength(d.year, d.month)
  }

  function YearLength(year: int): int { if IsLeap(year) then 366 else 365 }

  function DaysBeforeYear(year: int): int {
    365 * (year - 1) + (year - 1) / 4 - (year - 1) / 100 + (year - 1) / 400
  }

  function DaysBeforeMonth(year: int, month: int): int
    requires 1 <= month <= 13
    decreases month
  {
    if month == 1 then 0 else DaysBeforeMonth(year, month - 1) + MonthLength(year, month - 1)
  }

  function DayNumber(d: Date): int
    requires 1 <= d.month <= 12
  {
    DaysBeforeYear(d.year) + DaysBeforeMonth(d.year, d.month) + d.day - 1
  }

  /** `Weekday()`: Sunday is 0. Day 0 is a Monday. */
  function Weekday(d: Date): (w: int)
    requires 1 <= d.month <= 12
    ensures 0 <= w <= 6
  {
    (DayNumber(d) + 1) % 7
  }

  /** `AddDate(0, 0, 1)` on a valid date. */
  function NextDay(d: Date): Date
    requires Valid(d)
  {
    if d.day < MonthLength(d.year, d.month) then Date(d.year, d.month, d.day + 1)
    else if d.month < 12 then Date(d.year, d.month + 1, 1)
    else Date(d.year + 1, 1, 1)
  }

  /** `AddDate(n, 0, 0)` on a valid date: 29 February falls over to 1 March in a common year. */
  function AddYears(d: Date, n: int): Date
    requires Valid(d)
  {
    if d.month == 2 && d.day == 29 && !IsLeap(d.year + n) then Date(d.year + n, 3, 1)
    else Date(d.year + n, d.month, d.day)
  }

  // ---------- lengths of months and years ----------

  lemma DaysBeforeNextYear(year: int)
    ensures DaysBeforeYear(year + 1) == DaysBeforeYear(year) + YearLength(year)
  {
    StepOfQuotient(year, 4);
    StepOfQuotient(year, 100);
    StepOfQuotient(year, 400);
    Centuries(year);
    var a, b, c := year / 4, year / 100, year / 400;
    var a', b', c' := (year - 1) / 4, (year - 1) / 100, (year - 1) / 400;
    assert (a - a') - (b - b') + (c - c') == if IsLeap(year) then 1 else 0;
    assert DaysBeforeYear(year + 1) == 365 * year + a - b + c;
    assert DaysBeforeYear(year) == 365 * (year - 1) + a' - b' + c';
  }

  lemma StepOfQuotient(n: int, k: int)
    requires k == 4 || k == 100 || k == 400
    ensures n / k == (n - 1) / k + (if n % k == 0 then 1 else 0)
  {
  }

  lemma Centuries(year: int)
    ensures (year % 400 == 0 ==> year % 100 == 0) && (year % 100 == 0 ==> year % 4 == 0)
  {
  }

  /** The twelve months fill the year. */
  lemma MonthsFillYear(year: int)
    ensures DaysBeforeMonth(year, 13) == YearLength(year)
  {
    assert DaysBeforeMonth(year, 4) == DaysBeforeMonth(year, 3) + 31;
    assert DaysBeforeMonth(year, 7) == DaysBeforeMonth(year, 4) + 91;
    assert DaysBeforeMonth(year, 10) == DaysBeforeMonth(year, 7) + 92;
    assert DaysBeforeMonth(year, 13) == DaysBeforeMonth(year, 10) + 92;
  }

  lemma {:induction false} DaysBeforeMonthMonotone(year: int, m: int, n: int)
    requires 1 <= m < n <= 13
    ensures DaysBeforeMonth(year, m) + MonthLength(year, m) <= DaysBeforeMonth(year, n)
    decreases n
  {
    if m < n - 1 { DaysBeforeMonthMonotone(year, m, n - 1); }
  }

  lemma {:induction false} DaysBeforeYearMonotone(y: int, z: int)
    requires y < z
    ensures DaysBeforeYear(y) + YearLength(y) <= DaysBeforeYear(z)
    decreases z - y
  {
    DaysBeforeNextYear(z - 1);
    if y < z - 1 { DaysBeforeYearMonotone(y, z - 1); } else { assert y == z - 1; }
  }

  /** A valid date lies inside its year. */
  lemma DayOfYearBounds(d: Date)
    requires Valid(d)
    ensures DaysBeforeYear(d.year) <= DayNumber(d) < DaysBeforeYear(d.year) + YearLength(d.year)
  {
    MonthsFillYear(d.year);
    DaysBeforeMonthMonotone(d.year, d.month, 13);
    if d.month > 1 { DaysBeforeMonthMonotone(d.year, 1, d.month); }
  }

  // ---------- dates and day numbers ----------

  predicate Before(a: Date, b: Date) {
    a.year < b.year || (a.year == b.year && (a.month < b.month || (a.month == b.month && a.day < b.day)))
  }

  /** Numbering follows calendar order, so it is injective on valid dates. */
  lemma DayNumberOrder(a: Date, b: Date)
    requires Valid(a) && Valid(b)
    ensures DayNumber(a) < DayNumber(b) <==> Before(a, b)
    ensures DayNumber(a) == DayNumber(b) <==> a == b
  {
    if Before(a, b) { OrderedNumbers(a, b); }
    if Before(b, a) { OrderedNumbers(b, a); }
  }

  lemma OrderedNumbers(a: Date, b: Date)
    requires Valid(a) && Valid(b) && Before(a, b)
    ensures DayNumber(a) < DayNumber(b)
  {
    DayOfYearBounds(a);
    DayOfYearBounds(b);
    if a.year < b.year {
      DaysBeforeYearMonotone(a.year, b.year);
    } else if a.month < b.month {
      DaysBeforeMonthMonotone(a.year, a.month, b.month);
    }
  }

  /** Stepping one calendar day moves one number on. */
  lemma NextDayNumber(d: Date)
    requires Valid(d)
    ensures Valid(NextDay(d)) && DayNumber(NextDay(d)) == DayNumber(d) + 1
  {
    if d.day == MonthLength(d.year, d.month) {
      if d.month == 12 {
        DaysBeforeNextYear(d.year);
        MonthsFillYear(d.year);
      }
    }
  }

  /** The year holding day `n`, found upwards from a year that starts no later than `n`. */
  function YearFrom(n: int, year: int): (r: int)
    requires DaysBeforeYear(year) <= n
    ensures DaysBeforeYear(r) <= n < DaysBeforeYear(r) + YearLength(r)
    decreases n - DaysBeforeYear(year)
  {
    DaysBeforeNextYear(year);
    if n < DaysBeforeYear(year + 1) then year else YearFrom(n, year + 1)
  }

  function MonthFrom(year: int, dayOfYear: int, month: int): (r: int)
    requires 1 <= month <= 12 && DaysBeforeMonth(year, month) <= dayOfYear < YearLength(year)
    ensures 1 <= r <= 12
    ensures DaysBeforeMonth(year, r) <= dayOfYear < DaysBeforeMonth(year, r) + MonthLength(year, r)
    decreases 12 - month
  {
    MonthsFillYear(year);
    if dayOfYear < DaysBeforeMonth(year, month + 1) then month else MonthFrom(year, dayOfYear, month + 1)
  }

  /** A year that starts no later than day `n`. */
  function EarlyYear(n: int): (y: int)
    ensures DaysBeforeYear(y) <= n
  {
    if n < 0 then n / 365 + 1 else n / 366 + 1
  }

  /** The calendar date of a day number: its inverse. */
  function DateOf(n: int): (d: Date)
    ensures Valid(d) && DayNumber(d) == n
  {
    var year := YearFrom(n, EarlyYear(n));
    var dayOfYear := n - DaysBeforeYear(year);
    var month := MonthFrom(year, dayOfYear, 1);
    Date(year, month, dayOfYear - DaysBeforeMonth(year, month) + 1)
  }

  lemma DateOfDayNumber(d: Date)
    requires Valid(d)
    ensures DateOf(DayNumber(d)) == d
  {
    DayNumberOrder(DateOf(DayNumber(d)), d);
  }

  lemma AddYearsValid(d: Date, n: int)
    requires Valid(d)
    ensures Valid(AddYears(d, n))
  {
  }

  // ---------- against the real calendar ----------

  /** Weekdays follow each other from day to day. */
  lemma WeekdayAdvances(d: Date)
    requires Valid(d)
    ensures Weekday(NextDay(d)) == (Weekday(d) + 1) % 7
  {
    hide DayNumber;
    NextDayNumber(d);
  }

  /** Four hundred years are 146097 days, which is a whole number of weeks. */
  lemma GregorianCycle(d: Date)
    requires 1 <= d.month <= 12
    ensures DayNumber(Date(d.year + 400, d.month, d.day)) == DayNumber(d) + 146097
    ensures Weekday(Date(d.year + 400, d.month, d.day)) == Weekday(d)
  {
    CycleOfMonths(d.year, d.month);
    CycleOfYears(d.year);
    hide DaysBeforeYear, DaysBeforeMonth;
    WholeWeeks(DayNumber(d) + 1);
  }

  lemma WholeWeeks(n: int)
    ensures (n + 146097) % 7 == n % 7
  {
  }

  lemma CycleOfYears(year: int)
    ensures DaysBeforeYear(year + 400) == DaysBeforeYear(year) + 146097
  {
    CycleOfQuotient(year - 1, 4);
    CycleOfQuotient(year - 1, 100);
    CycleOfQuotient(year - 1, 400);
  }

  lemma CycleOfQuotient(n: int, k: int)
    requires k == 4 || k == 100 || k == 400
    ensures (n + 400) / k == n / k + 400 / k && (n + 400) % k == n % k
  {
  }

  lemma CycleOfLeaps(year: int)
    ensures IsLeap(year + 400) == IsLeap(year)
  {
    CycleOfQuotient(year, 4);
    CycleOfQuotient(year, 100);
    CycleOfQuotient(year, 400);
  }

  lemma {:induction false} CycleOfMonths(year: int, month: int)
    requires 1 <= month <= 13
    ensures DaysBeforeMonth(year + 400, month) == DaysBeforeMonth(year, month)
    decreases month
  {
    if month > 1 {
      CycleOfLeaps(year);
      hide IsLeap;
      CycleOfMonths(year, month - 1);
    }
  }

  /** Go's zero time is day 0 and the Unix epoch day 719162; 1 January 2000 was a Saturday. */
  lemma Anchors()
    ensures DayNumber(Date(1, 1, 1)) == 0 && DayNumber(Date(1970, 1, 1)) == 719162
    ensures Weekday(Date(1, 1, 1)) == 1 && Weekday(Date(1970, 1, 1)) == 4 && Weekday(Date(2000, 1, 1)) == 6
    ensures DayNumber(Date(2025, 1, 12)) == 739262 && Weekday(Date(2025, 1, 12)) == 0
  {
  }

  /** A century year is a leap year only every fourth time. */
  lemma CenturyAnchors()
    ensures DayNumber(Date(1900, 3, 1)) == DayNumber(Date(1900, 2, 28)) + 1 == 693654
    ensures DayNumber(Date(2000, 3, 1)) == DayNumber(Date(2000, 2, 28)) + 2 == 730179
    ensures DayNumber(Date(2024, 3, 1)) == DayNumber(Date(2024, 2, 28)) + 2
    ensures DayNumber(Date(2100, 3, 1)) == DayNumber(Date(2100, 2, 28)) + 1 == 766703
  {
    assert DaysBeforeMonth(1900, 2) == 31 && DaysBeforeMonth(1900, 3) == 59;
    assert DaysBeforeMonth(2000, 2) == 31 && DaysBeforeMonth(2000, 3) == 60;
    assert DaysBeforeMonth(2024, 2) == 31 && DaysBeforeMonth(2024, 3) == 60;
    assert DaysBeforeMonth(2100, 2) == 31 && DaysBeforeMonth(2100, 3) == 59;
  }

  /** Where the months of a common year begin. */
  lemma MonthStarts(year: int)
    requires year % 4 != 0
    ensures DaysBeforeMonth(year, 2) == 31 && DaysBeforeMonth(year, 3) == 59 && DaysBeforeMonth(year, 4) == 90
    ensures DaysBeforeMonth(year, 5) == 120 && DaysBeforeMonth(year, 6) == 151 && DaysBeforeMonth(year, 7) == 181
    ensures DaysBeforeMonth(year, 8) == 212 && DaysBeforeMonth(year, 9) == 243 && DaysBeforeMonth(year, 10) == 273
    ensures DaysBeforeMonth(year, 11) == 304 && DaysBeforeMonth(year, 12) == 334 && DaysBeforeMonth(year, 13) == 365
  {
    assert DaysBeforeMonth(year, 2) == 31 && DaysBeforeMonth(year, 3) == 59;
    assert DaysBeforeMonth(year, 5) == 120;
    assert DaysBeforeMonth(year, 7) == 181;
    assert DaysBeforeMonth(year, 9) == 243;
    assert DaysBeforeMonth(year, 11) == 304;
  }
}
