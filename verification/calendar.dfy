/**
 * The proleptic Gregorian calendar as Python's `datetime.date` implements it:
 * the leap-year rule, month lengths, the day ordinal (`toordinal`) and
 * `date + timedelta(days=n)`, which raises `OverflowError` past `date.max`.
 */
module Calendar {
  import opened Wrappers

  /** `datetime.MINYEAR` and `datetime.MAXYEAR`. */
  const MinYear: int := 1
  const MaxYear: int := 9999

  /** `date.max.toordinal()`, the ordinal of 9999-12-31. */
  const MaxOrdinal: int := 3652059

  datatype Date = Date(year: int, month: int, day: int)

  /** The error `date + timedelta` raises when the result is past `date.max`. */
  datatype DateError = DateOverflow

  predicate IsLeapYear(year: int) {
    year % 4 == 0 && (year % 100 != 0 || year % 400 == 0)
  }

  /** Length of a month; months outside 1..12 never reach it from a well-formed date. */
  function DaysInMonth(year: int, month: int): (n: int)
    ensures 28 <= n <= 31
    ensures month == 2 ==> (n == 29 <==> IsLeapYear(year))
  {
    if month == 2 then (if IsLeapYear(year) then 29 else 28)
    else if month == 4 || month == 6 || month == 9 || month == 11 then 30
    else 31
  }

  function DaysInYear(year: int): int {
    if IsLeapYear(year) then 366 else 365
  }

  /** A month in 1..12 and a day inside that month, in any year. */
  predicate WellFormed(d: Date) {
    1 <= d.month <= 12 && 1 <= d.day <= DaysInMonth(d.year, d.month)
  }

  /** A value a Python `date` can hold. */
  predicate IsValid(d: Date) {
    MinYear <= d.year <= MaxYear && WellFormed(d)
  }

  /** Days in the years strictly before `year`, counted from 0001-01-01. */
  function DaysBeforeYear(year: int): int {
    var y := year - 1;
    y * 365 + y / 4 - y / 100 + y / 400
  }

  /** Days in the months of `year` strictly before `month`. */
  function DaysBeforeMonth(year: int, month: int): int {
    if month < 1 || 12 < month then 0
    else
      var before := [0, 31, 59, 90, 120, 151, 181, 212, 243, 273, 304, 334];
      before[month - 1] + (if month > 2 && IsLeapYear(year) then 1 else 0)
  }

  /** `date.toordinal()`: 0001-01-01 has ordinal 1. */
  function Ordinal(d: Date): int {
    DaysBeforeYear(d.year) + DaysBeforeMonth(d.year, d.month) + d.day
  }

  /** The calendar day after `d`. */
  function NextDay(d: Date): Date {
    if d.day < DaysInMonth(d.year, d.month) then Date(d.year, d.month, d.day + 1)
    else if d.month < 12 then Date(d.year, d.month + 1, 1)
    else Date(d.year + 1, 1, 1)
  }

  /** `n` calendar days after `d`, with no bound on the year. */
  function AddDays(d: Date, n: nat): Date {
    if n == 0 then d else NextDay(AddDays(d, n - 1))
  }

  /**
   * `d + timedelta(days=n)` for a non-negative `n`: the date `n` days later,
   * or `OverflowError` when that date lies past 9999-12-31.
   */
  function PlusDays(d: Date, n: nat): (r: Result<Date, DateError>)
    requires IsValid(d)
    ensures r.Success? ==> IsValid(r.value) && Ordinal(r.value) == Ordinal(d) + n
    ensures r.Failure? <==> Ordinal(d) + n > MaxOrdinal
  {
    var e := AddDays(d, n);
    AddDaysOrdinal(d, n);
    YearBounds(e);
    if e.year <= MaxYear then
      DaysBeforeYearMonotone(e.year + 1, MaxYear + 1);
      Success(e)
    else
      DaysBeforeYearMonotone(MaxYear + 1, e.year);
      Failure(DateOverflow)
  }

  lemma DaysBeforeNextYear(year: int)
    ensures DaysBeforeYear(year + 1) == DaysBeforeYear(year) + DaysInYear(year)
  {
    var y := year - 1;
    DivStep(y, 4);
    DivStep(y, 100);
    DivStep(y, 400);
    var steps := ((y + 1) / 4 - y / 4) - ((y + 1) / 100 - y / 100) + ((y + 1) / 400 - y / 400);
    assert DaysBeforeYear(year + 1) - DaysBeforeYear(year) == 365 + steps;
    if year % 400 == 0 {
      assert year % 100 == 0 && year % 4 == 0;
    } else if year % 100 == 0 {
      assert year % 4 == 0;
    }
  }

  /** Floor division by `c` steps up by one exactly at multiples of `c`. */
  lemma DivStep(y: int, c: int)
    requires c == 4 || c == 100 || c == 400
    ensures (y + 1) / c - y / c == if (y + 1) % c == 0 then 1 else 0
  {
    var q, r := y / c, y % c;
    if r + 1 < c {
      assert (y + 1) / c == q && (y + 1) % c == r + 1;
    } else {
      assert (y + 1) / c == q + 1 && (y + 1) % c == 0;
    }
  }

  lemma DaysBeforeNextMonth(year: int, month: int)
    requires 1 <= month < 12
    ensures DaysBeforeMonth(year, month + 1) == DaysBeforeMonth(year, month) + DaysInMonth(year, month)
  {
  }

  /** Stepping one day forward advances the ordinal by exactly one. */
  lemma NextDayOrdinal(d: Date)
    requires WellFormed(d)
    ensures WellFormed(NextDay(d))
    ensures Ordinal(NextDay(d)) == Ordinal(d) + 1
  {
    if d.day < DaysInMonth(d.year, d.month) {
    } else if d.month < 12 {
      DaysBeforeNextMonth(d.year, d.month);
    } else {
      DaysBeforeNextYear(d.year);
    }
  }

  /** `AddDays` is ordinal arithmetic, the way `date + timedelta` is defined. */
  lemma {:induction false} AddDaysOrdinal(d: Date, n: nat)
    requires WellFormed(d)
    ensures WellFormed(AddDays(d, n))
    ensures Ordinal(AddDays(d, n)) == Ordinal(d) + n
  {
    if n > 0 {
      AddDaysOrdinal(d, n - 1);
      NextDayOrdinal(AddDays(d, n - 1));
    }
  }

  lemma {:induction false} DaysBeforeYearMonotone(a: int, b: int)
    requires a <= b
    ensures DaysBeforeYear(a) <= DaysBeforeYear(b)
    decreases b - a
  {
    if a < b {
      DaysBeforeYearMonotone(a, b - 1);
      DaysBeforeNextYear(b - 1);
    }
  }

  /** The ordinal of a well-formed date falls inside its own year's span. */
  lemma YearBounds(d: Date)
    requires WellFormed(d)
    ensures DaysBeforeYear(d.year) < Ordinal(d) <= DaysBeforeYear(d.year + 1)
  {
    DaysBeforeNextYear(d.year);
  }

  lemma {:induction false} DaysBeforeMonthMonotone(year: int, a: int, b: int)
    requires 1 <= a < b <= 12
    ensures DaysBeforeMonth(year, a) + DaysInMonth(year, a) <= DaysBeforeMonth(year, b)
    decreases b - a
  {
    DaysBeforeNextMonth(year, b - 1);
    if a < b - 1 {
      DaysBeforeMonthMonotone(year, a, b - 1);
    }
  }

  /** Two well-formed dates share an ordinal exactly when they are equal. */
  lemma OrdinalInjective(a: Date, b: Date)
    requires WellFormed(a) && WellFormed(b)
    ensures Ordinal(a) == Ordinal(b) <==> a == b
  {
    if Ordinal(a) == Ordinal(b) {
      YearBounds(a);
      YearBounds(b);
      if a.year < b.year {
        DaysBeforeYearMonotone(a.year + 1, b.year);
      } else if b.year < a.year {
        DaysBeforeYearMonotone(b.year + 1, a.year);
      }
      assert a.year == b.year;
      if a.month < b.month {
        DaysBeforeMonthMonotone(a.year, a.month, b.month);
      } else if b.month < a.month {
        DaysBeforeMonthMonotone(a.year, b.month, a.month);
      }
    }
  }

  /**
   * `PlusDays` returns the one valid date whose ordinal is `n` past `d`'s,
   * which is how Python computes `date + timedelta`.
   */
  lemma PlusDaysIsOrdinalShift(d: Date, n: nat, e: Date)
    requires IsValid(d) && WellFormed(e)
    ensures Ordinal(e) == Ordinal(d) + n ==>
      (PlusDays(d, n).Success? <==> e.year <= MaxYear) &&
      (PlusDays(d, n).Success? ==> PlusDays(d, n).value == e)
  {
    AddDaysOrdinal(d, n);
    OrdinalInjective(AddDays(d, n), e);
  }

  /**
   * Less than four weeks after a well-formed date is either the same month,
   * or the next month (next year after December), never further.
   */
  lemma {:induction false} AddDaysShortSpan(d: Date, k: nat)
    requires WellFormed(d) && k < 28
    ensures var dim := DaysInMonth(d.year, d.month);
      AddDays(d, k) ==
        if d.day + k <= dim then Date(d.year, d.month, d.day + k)
        else if d.month < 12 then Date(d.year, d.month + 1, d.day + k - dim)
        else Date(d.year + 1, 1, d.day + k - dim)
  {
    if k > 0 {
      AddDaysShortSpan(d, k - 1);
    }
  }
}
