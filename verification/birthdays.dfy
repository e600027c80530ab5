/**
 * `get_birthdays_week`: the caller's contacts whose birthday, month and day
 * with the year ignored, falls on one of the seven calendar days starting
 * with `today`. The repository answers through one of two queries, chosen by
 * `today.day <= 21`; both are modelled as written and proved to mean the
 * same window.
 */
module Birthdays {
  import opened Wrappers
  import opened Calendar
  import opened Decimal
  import opened Query
  import opened Contacts

  /** `range(7)`: the window covers `today` and the six days after it. */
  const WindowDays: nat := 7

  /** The largest `today.day` that takes the same-month query. */
  const SameMonthLastDay: int := 21

  /** The part of a date that recurs every year. */
  datatype MonthDay = MonthDay(month: int, day: int)

  function MonthDayOf(d: Date): MonthDay {
    MonthDay(d.month, d.day)
  }

  /** Reference meaning: `birthday` recurs on one of the window's seven calendar days. */
  predicate InWindow(today: Date, birthday: Date) {
    exists k: nat | k < WindowDays :: MonthDayOf(AddDays(today, k)) == MonthDayOf(birthday)
  }

  function InWindowOwnedBy(uid: int, today: Date): Contact -> bool {
    (c: Contact) => c.userId == uid && InWindow(today, c.birthday)
  }

  // ---------------------------------------------------------------------
  // Same-month query: `today.day <= 21`
  // ---------------------------------------------------------------------

  /**
   * The day texts of the same-month query: the decimal text of each of the
   * seven days from `today.day` on, zero-padded to two characters.
   */
  function DayTexts(today: Date): (r: seq<string>)
    requires today.day >= 0
    ensures |r| == WindowDays
  {
    seq(WindowDays, x requires 0 <= x < WindowDays => ZeroPad2(DecimalString(today.day + x)))
  }

  /**
   * The month text of the same-month query: the decimal text of
   * `today.month`, zero-padded; it is two characters and reads back as the
   * month.
   */
  function MonthText(today: Date): (r: string)
    requires 1 <= today.month <= 12
    ensures |r| == 2 && DecimalValue(r) == today.month
  {
    ZeroPad2Value(today.month);
    ZeroPad2(DecimalString(today.month))
  }

  /**
   * The filter of the same-month query: the caller's contacts whose
   * birthday month equals the month text and whose birthday day is one of
   * the day texts, compared as numbers.
   */
  function SameMonthFilter(uid: int, monthText: string, dayTexts: seq<string>): Contact -> bool {
    (c: Contact) =>
      && c.userId == uid
      && c.birthday.month == DecimalValue(monthText)
      && exists t | t in dayTexts :: DecimalValue(t) == c.birthday.day
  }

  /**
   * The same-month query, in storage order: the caller's contacts born in
   * `today`'s month on a day from `today.day` to `today.day + 6`, any year.
   */
  function SameMonthBranch(rows: seq<Contact>, uid: int, today: Date): (r: seq<Contact>)
    requires IsValid(today)
    ensures forall c :: c in r <==>
      && c in rows && c.userId == uid
      && c.birthday.month == today.month
      && today.day <= c.birthday.day < today.day + WindowDays
  {
    var monthText, dayTexts := MonthText(today), DayTexts(today);
    ZeroPad2Value(today.month);
    forall x | 0 <= x < WindowDays
      ensures DecimalValue(dayTexts[x]) == today.day + x
    {
      ZeroPad2Value(today.day + x);
    }
    forall c | c in rows
      ensures var d := c.birthday.day;
        (exists t | t in dayTexts :: DecimalValue(t) == d) <==> today.day <= d < today.day + WindowDays
    {
      var d := c.birthday.day;
      if today.day <= d < today.day + WindowDays {
        var t := dayTexts[d - today.day];
        assert t in dayTexts && DecimalValue(t) == d;
      }
      if exists t | t in dayTexts :: DecimalValue(t) == d {
        var t :| t in dayTexts && DecimalValue(t) == d;
        var x :| 0 <= x < |dayTexts| && dayTexts[x] == t;
      }
    }
    Select(rows, SameMonthFilter(uid, monthText, dayTexts))
  }

  /** The padded day texts are two characters each and read back as the seven days. */
  lemma DayTextsReadBack(today: Date)
    requires IsValid(today)
    ensures |DayTexts(today)| == WindowDays
    ensures forall x :: 0 <= x < WindowDays ==>
      |DayTexts(today)[x]| == 2 && DecimalValue(DayTexts(today)[x]) == today.day + x
  {
    forall x | 0 <= x < WindowDays
      ensures |DayTexts(today)[x]| == 2 && DecimalValue(DayTexts(today)[x]) == today.day + x
    {
      ZeroPad2Value(today.day + x);
    }
  }

  // ---------------------------------------------------------------------
  // Rollover query: `today.day > 21`
  // ---------------------------------------------------------------------

  /**
   * `next_week`: the month and day of `today + timedelta(x)` for `x` in
   * `range(7)`; `OverflowError` when any of those dates is past 9999-12-31.
   */
  function NextWeek(today: Date): (r: Result<seq<MonthDay>, DateError>)
    requires IsValid(today)
    ensures r.Failure? <==> Ordinal(today) + WindowDays - 1 > MaxOrdinal
    ensures r.Success? ==> |r.value| == WindowDays
    ensures r.Success? ==>
      forall k :: 0 <= k < WindowDays ==> r.value[k] == MonthDayOf(AddDays(today, k))
  {
    if exists x: nat | x < WindowDays :: PlusDays(today, x).Failure? then
      Failure(DateOverflow)
    else
      var week := seq(WindowDays, x requires 0 <= x < WindowDays =>
        var d := PlusDays(today, x);
        if d.Success? then MonthDayOf(d.value) else MonthDayOf(today));
      assert forall k :: 0 <= k < WindowDays ==> week[k] == MonthDayOf(AddDays(today, k)) by {
        forall k | 0 <= k < WindowDays
          ensures week[k] == MonthDayOf(AddDays(today, k))
        {
          AddDaysOrdinal(today, k);
          PlusDaysIsOrdinalShift(today, k, AddDays(today, k));
        }
      }
      assert PlusDays(today, WindowDays - 1).Success?;
      Success(week)
  }

  function OnMonthDay(uid: int, md: MonthDay): Contact -> bool {
    (c: Contact) => c.userId == uid && MonthDayOf(c.birthday) == md
  }

  function OnAnyMonthDay(uid: int, mds: seq<MonthDay>): Contact -> bool {
    (c: Contact) => c.userId == uid && MonthDayOf(c.birthday) in mds
  }

  /**
   * The rollover loop: for each month and day in order, the caller's
   * contacts born on it, appended to the result.
   */
  function RolloverQueries(rows: seq<Contact>, uid: int, mds: seq<MonthDay>): (r: seq<Contact>)
    ensures forall c :: c in r <==> c in rows && c.userId == uid && MonthDayOf(c.birthday) in mds
  {
    if mds == [] then []
    else Select(rows, OnMonthDay(uid, mds[0])) + RolloverQueries(rows, uid, mds[1..])
  }

  /**
   * With distinct month-days the per-day queries never overlap, so the loop
   * returns each matching row exactly as often as the table holds it.
   */
  lemma {:induction false} RolloverMultiset(rows: seq<Contact>, uid: int, mds: seq<MonthDay>)
    requires Distinct(mds)
    ensures multiset(RolloverQueries(rows, uid, mds)) == multiset(Select(rows, OnAnyMonthDay(uid, mds)))
  {
    if mds == [] {
      SelectNone(rows, OnAnyMonthDay(uid, mds));
    } else {
      var rest := mds[1..];
      assert Distinct(rest);
      RolloverMultiset(rows, uid, rest);
      assert mds[0] !in rest;
      assert forall md :: md in mds <==> md == mds[0] || md in rest by {
        assert mds == [mds[0]] + rest;
      }
      var p, q, pq := OnMonthDay(uid, mds[0]), OnAnyMonthDay(uid, rest), OnAnyMonthDay(uid, mds);
      assert forall c :: c in rows ==> !(p(c) && q(c));
      assert forall c :: pq(c) == (p(c) || q(c));
      SelectDisjointUnion(rows, p, q, pq);
      calc {
        multiset(RolloverQueries(rows, uid, mds));
        multiset(Select(rows, p) + RolloverQueries(rows, uid, rest));
        multiset(Select(rows, p)) + multiset(RolloverQueries(rows, uid, rest));
        multiset(Select(rows, p)) + multiset(Select(rows, q));
      }
    }
  }

  /** The seven days of the window fall on seven different month-days. */
  lemma WeekDistinct(today: Date)
    requires IsValid(today)
    ensures forall i, j :: 0 <= i < j < WindowDays ==>
      MonthDayOf(AddDays(today, i)) != MonthDayOf(AddDays(today, j))
  {
    forall i, j | 0 <= i < j < WindowDays
      ensures MonthDayOf(AddDays(today, i)) != MonthDayOf(AddDays(today, j))
    {
      AddDaysShortSpan(today, i);
      AddDaysShortSpan(today, j);
    }
  }

  // ---------------------------------------------------------------------
  // The repository function and its meaning
  // ---------------------------------------------------------------------

  /** `get_birthdays_week`, with `today` passed in instead of read from the clock. */
  function GetBirthdaysWeek(db: Store, user: User, today: Date): (r: Result<seq<Contact>, DateError>)
    requires IsValid(today)
    ensures r.Failure? <==> Ordinal(today) + WindowDays - 1 > MaxOrdinal
    ensures r.Failure? ==> today.day > SameMonthLastDay
    ensures r.Success? ==> forall c :: c in r.value <==>
      c in db.rows && c.userId == user.id && InWindow(today, c.birthday)
  {
    if today.day <= SameMonthLastDay then
      SameMonthFitsWindow(today);
      forall c | c in db.rows
        ensures InWindow(today, c.birthday) <==>
          c.birthday.month == today.month && today.day <= c.birthday.day < today.day + WindowDays
      {
        WindowSameMonth(today, c.birthday);
      }
      Success(SameMonthBranch(db.rows, user.id, today))
    else
      match NextWeek(today)
      case Failure(e) => Failure(e)
      case Success(week) =>
        assert forall b :: InWindow(today, b) <==> MonthDayOf(b) in week by {
          forall b | MonthDayOf(b) in week
            ensures InWindow(today, b)
          {
            var k :| 0 <= k < |week| && week[k] == MonthDayOf(b);
            assert MonthDayOf(AddDays(today, k)) == MonthDayOf(b);
          }
        }
        Success(RolloverQueries(db.rows, user.id, week))
  }

  /**
   * When `today.day <= 21` the window cannot leave the month: the sixth day
   * after is at most the 27th, and no month is shorter than 28 days. So the
   * window stays inside the valid date range too.
   */
  lemma SameMonthFitsWindow(today: Date)
    requires IsValid(today) && today.day <= SameMonthLastDay
    ensures today.day + WindowDays - 1 <= DaysInMonth(today.year, today.month)
    ensures Ordinal(today) + WindowDays - 1 <= MaxOrdinal
  {
    AddDaysShortSpan(today, WindowDays - 1);
    AddDaysOrdinal(today, WindowDays - 1);
    YearBounds(AddDays(today, WindowDays - 1));
    DaysBeforeYearMonotone(today.year + 1, MaxYear + 1);
  }

  /**
   * For `today.day <= 21`, falling in the window is exactly the same-month
   * test: same month, day from `today.day` to `today.day + 6`.
   */
  lemma WindowSameMonth(today: Date, birthday: Date)
    requires IsValid(today) && today.day <= SameMonthLastDay
    ensures InWindow(today, birthday) <==>
      birthday.month == today.month && today.day <= birthday.day < today.day + WindowDays
  {
    forall k: nat | k < WindowDays
      ensures AddDays(today, k) == Date(today.year, today.month, today.day + k)
    {
      AddDaysShortSpan(today, k);
    }
    if birthday.month == today.month && today.day <= birthday.day < today.day + WindowDays {
      var k: nat := birthday.day - today.day;
      assert MonthDayOf(AddDays(today, k)) == MonthDayOf(birthday);
    }
  }

  /** The same-month query returns exactly the window's rows, in storage order. */
  lemma SameMonthIsWindow(rows: seq<Contact>, uid: int, today: Date)
    requires IsValid(today) && today.day <= SameMonthLastDay
    ensures SameMonthBranch(rows, uid, today) == Select(rows, InWindowOwnedBy(uid, today))
  {
    var monthText, dayTexts := MonthText(today), DayTexts(today);
    ZeroPad2Value(today.month);
    DayTextsReadBack(today);
    forall c | c in rows
      ensures SameMonthFilter(uid, monthText, dayTexts)(c) == InWindowOwnedBy(uid, today)(c)
    {
      WindowSameMonth(today, c.birthday);
      if today.day <= c.birthday.day < today.day + WindowDays {
        assert DecimalValue(dayTexts[c.birthday.day - today.day]) == c.birthday.day;
      }
    }
    SelectExt(rows, SameMonthFilter(uid, monthText, dayTexts), InWindowOwnedBy(uid, today));
  }

  /** The rollover query returns the window's rows, each as often as the table holds it. */
  lemma RolloverIsWindow(rows: seq<Contact>, uid: int, today: Date)
    requires IsValid(today) && NextWeek(today).Success?
    ensures multiset(RolloverQueries(rows, uid, NextWeek(today).value))
         == multiset(Select(rows, InWindowOwnedBy(uid, today)))
  {
    var week := NextWeek(today).value;
    WeekDistinct(today);
    assert Distinct(week);
    RolloverMultiset(rows, uid, week);
    forall c | c in rows
      ensures OnAnyMonthDay(uid, week)(c) == InWindowOwnedBy(uid, today)(c)
    {
      if MonthDayOf(c.birthday) in week {
        var k :| 0 <= k < |week| && week[k] == MonthDayOf(c.birthday);
        assert MonthDayOf(AddDays(today, k)) == MonthDayOf(c.birthday);
      }
    }
    SelectExt(rows, OnAnyMonthDay(uid, week), InWindowOwnedBy(uid, today));
  }

  /**
   * The `<= 21` threshold is a safe fast path: on those days the rollover
   * query would run without overflow and return the same rows, with the same
   * multiplicities, as the same-month query.
   */
  lemma BranchEquivalence(rows: seq<Contact>, uid: int, today: Date)
    requires IsValid(today) && today.day <= SameMonthLastDay
    ensures NextWeek(today).Success?
    ensures multiset(SameMonthBranch(rows, uid, today))
         == multiset(RolloverQueries(rows, uid, NextWeek(today).value))
  {
    SameMonthFitsWindow(today);
    SameMonthIsWindow(rows, uid, today);
    RolloverIsWindow(rows, uid, today);
  }

  /**
   * Whichever query runs, the result holds every row of the window, each as
   * often as the table holds it, and nothing else.
   */
  lemma BirthdaysWeekExact(db: Store, user: User, today: Date)
    requires IsValid(today)
    ensures var r := GetBirthdaysWeek(db, user, today);
      r.Success? ==> multiset(r.value) == multiset(Select(db.rows, InWindowOwnedBy(user.id, today)))
  {
    if today.day <= SameMonthLastDay {
      SameMonthIsWindow(db.rows, user.id, today);
    } else if NextWeek(today).Success? {
      RolloverIsWindow(db.rows, user.id, today);
    }
  }

  /**
   * Because the seven month-days differ, no contact comes back twice: a
   * table without repeated rows gives a result without repeated rows.
   */
  lemma BirthdaysWeekNoRepeats(db: Store, user: User, today: Date)
    requires IsValid(today) && Distinct(db.rows)
    ensures var r := GetBirthdaysWeek(db, user, today);
      r.Success? ==> Distinct(r.value)
  {
    var r := GetBirthdaysWeek(db, user, today);
    if r.Success? {
      BirthdaysWeekExact(db, user, today);
      SelectSubMultiset(db.rows, InWindowOwnedBy(user.id, today));
      DistinctCountsOnce(db.rows);
      assert forall x :: multiset(r.value)[x] <= multiset(db.rows)[x];
      CountsOnceDistinct(r.value);
    }
  }

  /**
   * Same-month query on the 10th of June: birthdays on June 10..16 of any
   * year come back, June 17 and July 12 do not, nor does another user's.
   */
  lemma SameMonthExample()
    ensures
      var today := Date(2023, 6, 10);
      var me, other := User(1, "me", "me@example.com"), User(2, "other", "other@example.com");
      var first := Contact(10, "A", "A", "a@example.com", "1", Date(1990, 6, 10), me.id);
      var last := Contact(11, "B", "B", "b@example.com", "2", Date(1985, 6, 16), me.id);
      var late := Contact(12, "C", "C", "c@example.com", "3", Date(1990, 6, 17), me.id);
      var nextMonth := Contact(13, "D", "D", "d@example.com", "4", Date(1990, 7, 12), me.id);
      var foreign := Contact(14, "E", "E", "e@example.com", "5", Date(1990, 6, 12), other.id);
      var r := GetBirthdaysWeek(Store([first, last, late, nextMonth, foreign], 15), me, today);
      r.Success? && first in r.value && last in r.value
      && late !in r.value && nextMonth !in r.value && foreign !in r.value
  {
    var today := Date(2023, 6, 10);
    WindowSameMonth(today, Date(1990, 6, 10));
    WindowSameMonth(today, Date(1985, 6, 16));
    WindowSameMonth(today, Date(1990, 6, 17));
    WindowSameMonth(today, Date(1990, 7, 12));
  }

  /**
   * Rollover query on the 28th of June, a 30-day month: the window runs
   * from June 28 to July 4, so July 4 comes back and July 5 does not.
   */
  lemma RolloverExample(today: Date, me: User, inside: Contact, outside: Contact)
    requires today == Date(2023, 6, 28)
    requires inside.birthday == Date(1985, 7, 4) && inside.userId == me.id
    requires outside.birthday == Date(1985, 7, 5) && outside.userId == me.id
    ensures var r := GetBirthdaysWeek(Store([inside, outside], 12), me, today);
      r.Success? && inside in r.value && outside !in r.value
  {
    assert Ordinal(today) + WindowDays - 1 <= MaxOrdinal;
    EndOfJuneWindow();
  }

  lemma EndOfJuneWindow()
    ensures InWindow(Date(2023, 6, 28), Date(1985, 7, 4))
    ensures !InWindow(Date(2023, 6, 28), Date(1985, 7, 5))
  {
    var today := Date(2023, 6, 28);
    assert DaysInMonth(2023, 6) == 30;
    forall k: nat | k < WindowDays
      ensures AddDays(today, k).month == 6 || AddDays(today, k).day <= 4
    {
      AddDaysShortSpan(today, k);
    }
    AddDaysShortSpan(today, 6);
    assert MonthDayOf(AddDays(today, 6)) == MonthDay(7, 4);
  }

  /**
   * A February 29 birthday matches only when the window itself contains a
   * February 29: it does in 2024, and does not in 2023, where the window
   * steps from February 28 to March 1.
   */
  lemma LeapDayExample()
    ensures InWindow(Date(2024, 2, 25), Date(2000, 2, 29))
    ensures !InWindow(Date(2023, 2, 25), Date(2000, 2, 29))
  {
    var leap, plain := Date(2024, 2, 25), Date(2023, 2, 25);
    forall k: nat | k < WindowDays
      ensures AddDays(plain, k) == if k <= 3 then Date(2023, 2, 25 + k) else Date(2023, 3, k - 3)
    {
      AddDaysShortSpan(plain, k);
    }
    AddDaysShortSpan(leap, 4);
    assert MonthDayOf(AddDays(leap, 4)) == MonthDay(2, 29);
  }
}
