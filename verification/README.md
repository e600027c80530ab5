# Contacts backend: data-access layer in Dafny

This project models the data-access layer of a FastAPI contacts backend,
`src/repository/contacts.py`. Authenticated users keep personal contact
records there and can list, read, create, update, delete and search them. A
weekly query returns the contacts whose birthday falls in the next seven days.

Every operation is scoped to its caller: a row is visible or changeable only
when its `user_id` is the caller's id. The `contacts` table is an immutable
value. It is a `seq<Contact>` in storage order plus the next value of its id
sequence. Each repository function becomes a pure function. A mutating
function returns the new table together with what the Python function
returns, and `None` stands for the Python `None`.

Modules:

- `Wrappers`: `Option` and `Result`.
- `Calendar`: the proleptic Gregorian calendar as Python's `datetime.date`
  implements it. It has the leap-year rule, month lengths, `NextDay` and
  `AddDays`, the day ordinal (`toordinal`), and `PlusDays`, which is
  `date + timedelta(days=n)`, including its `OverflowError` past 9999-12-31.
- `Decimal`: `str()` of a non-negative integer, the two-character zero
  padding of the same-month query, and the numeric value of a digit string
  (`DecimalValue`). The database takes that value when it compares
  `date_part(...)` with those strings, and every contract about the padded
  texts is stated through it.
- `Query`: `filter(p).all()` (`Select`) and `filter(p).first()`
  (`FirstMatch`) over a sequence, with the algebra the proofs need.
- `Contacts`: the `User`, `ContactInput`, `Contact` and `Store` records and
  the eight store operations.
- `Birthdays`: `get_birthdays_week`. Both of its queries are modelled as
  written. They are proved to compute the same seven-day window, `InWindow`:
  the birthday's month and day equal those of `today + k` days for some
  `k` in `0..6`.

The main theorem is `Birthdays.BranchEquivalence`. When `today.day <= 21`,
`today.day + 6 <= 27`, and no month is shorter than 28 days. So the
same-month query returns the same rows, with the same multiplicities, as the
calendar-walking rollover query would. `GetBirthdaysWeek` states that its
answer is exactly the caller's contacts in the window. That holds on both
sides of the threshold.

Two consequences of the code:

- A `today.day` of 22..31 takes the rollover query, which walks the
  calendar. When `today.day <= 21`, `today.day + 6 <= 27 < 28`, so the
  same-month query never misses a month boundary. `BranchEquivalence` and
  `BirthdaysWeekExact` show that the threshold never changes which rows come
  back or how many times each does. The order can differ: the same-month
  query keeps storage order, and the rollover query groups rows by window
  day.
- From the 28th of a 30-day month the window runs through the 4th of the
  next month. The 4th is included and the 5th is not (`RolloverExample`).

## Model

| member | source | states |
|---|---|---|
| `Calendar.IsLeapYear` | src/repository/contacts.py:83 | the Gregorian leap-year rule `date` follows; its consequence for February is stated by `Calendar.DaysInMonth` and exercised by `Birthdays.LeapDayExample` |
| `Calendar.IsValid` | src/repository/contacts.py:68 | a value a Python `date` can hold, years 1..9999; `Calendar.PlusDays` keeps it and fails exactly when it cannot |
| `Calendar.Ordinal` | src/repository/contacts.py:83 | the `toordinal` day count; `Calendar.OrdinalInjective` states that it identifies a date and `Calendar.NextDayOrdinal` that the next day adds one |
| `Calendar.NextDay` | src/repository/contacts.py:83 | one calendar step, as `timedelta(1)` takes it; see `Calendar.NextDayOrdinal` |
| `Calendar.AddDays` | src/repository/contacts.py:83 | `x` calendar steps with no year bound; see `Calendar.AddDaysOrdinal` and `Calendar.AddDaysShortSpan` |
| `Calendar.DaysInMonth` | src/repository/contacts.py:71-72 | every month has between 28 and 31 days; February has 29 exactly in a leap year |
| `Calendar.NextDayOrdinal` | src/repository/contacts.py:83 | the day after a well-formed date is well-formed and its ordinal is one more |
| `Calendar.AddDaysOrdinal` | src/repository/contacts.py:83 | adding `n` days keeps a date well-formed and adds exactly `n` to its ordinal, as `date + timedelta` is defined |
| `Calendar.OrdinalInjective` | src/repository/contacts.py:83 | two well-formed dates have the same ordinal exactly when they are the same date, so the ordinal identifies a date |
| `Calendar.PlusDays` | src/repository/contacts.py:83 | `today + timedelta(x)` yields a valid date whose ordinal is `x` more; it raises the overflow error exactly when that ordinal exceeds the ordinal of 9999-12-31 |
| `Calendar.PlusDaysIsOrdinalShift` | src/repository/contacts.py:83 | for any well-formed date whose ordinal is `x` more than today's, `today + timedelta(x)` returns that date exactly when its year is at most 9999, and raises otherwise |
| `Calendar.AddDaysShortSpan` | src/repository/contacts.py:83 | fewer than 28 days after a date lands in the same month or in the next one (January of the next year after December), on the day the count gives |
| `Decimal.DecimalString` | src/repository/contacts.py:72 | `str(n)` is a non-empty string of digits, one character long exactly when `n < 10` |
| `Decimal.DecimalRoundTrip` | src/repository/contacts.py:72 | reading back the digits `str(n)` writes gives `n` |
| `Decimal.LeadingZero` | src/repository/contacts.py:73 | prefixing `'0'` does not change the number a digit string denotes |
| `Decimal.DecimalValue` | src/repository/contacts.py:79-80 | the number the database reads from a padded text when it compares `date_part(...)` with it; `Decimal.DecimalRoundTrip` and `Decimal.LeadingZero` state that it inverts `str()` and ignores a leading zero |
| `Decimal.ZeroPad2` | src/repository/contacts.py:73-77 | padding puts one `'0'` before a text shorter than two characters, which stays as the tail, and leaves a longer text unchanged; a non-empty text becomes at least two characters long, and the number it denotes is unchanged |
| `Decimal.ZeroPad2Value` | src/repository/contacts.py:73-77 | for every `n` below 100 the zero-padded `str(n)` is exactly two characters and still denotes `n` |
| `Query.Select` | src/repository/contacts.py:54-55 | `filter(p).all()` returns exactly the rows satisfying `p`, never more rows than the table |
| `Query.SelectAppend` | src/repository/contacts.py:54-55 | filtering distributes over concatenation, so the result keeps storage order |
| `Query.FirstMatch` | src/repository/contacts.py:16-17 | `filter(p).first()` is `None` exactly when no row satisfies `p`, and otherwise the first row `filter(p).all()` would return |
| `Contacts.GetContacts` | src/repository/contacts.py:12-13 | the result is the caller's contacts in storage order from position `skip` on; its length is `min(limit, max(0, owned - skip))`; every row in it belongs to the caller |
| `Contacts.GetContact` | src/repository/contacts.py:16-17 | the result is `None` exactly when no row has that id and the caller as owner; otherwise it is such a row |
| `Contacts.GetContactExact` | src/repository/contacts.py:16-17 | with unique ids, the lookup returns a row exactly when that row is in the table with that id and the caller as owner |
| `Contacts.ForeignLooksMissing` | src/repository/contacts.py:16-51 | for an id no row of the caller carries, get, update and delete all return `None` and leave the table as it was, exactly as for a missing id |
| `Contacts.PostContact` | src/repository/contacts.py:20-30 | create appends one row: its five business fields are the input's and its owner is the caller; earlier rows are unchanged; the new id is fresh and the table stays valid |
| `Contacts.CreateThenGet` | src/repository/contacts.py:20-30 | reading the new id back gives the created row to its owner and `None` to anyone else; reads of every other id are unchanged |
| `Contacts.PutContact` | src/repository/contacts.py:33-43 | the result is `None` exactly when the lookup fails, and then the table is unchanged (no upsert); otherwise only the row with that id changes: its five business fields become the input's, and ids, owners and the row count stay the same |
| `Contacts.Overwrite` | src/repository/contacts.py:36-40 | the update step sets the five business fields to the client's and keeps the row's id and owner |
| `Contacts.UpdateThenGet` | src/repository/contacts.py:33-43 | after a successful update the owner reads back the updated row |
| `Contacts.DeleteContact` | src/repository/contacts.py:46-51 | the result is the row the lookup finds, as it was before the delete; on `None` the table is unchanged; otherwise exactly the rows with other ids remain |
| `Contacts.DeleteThenGet` | src/repository/contacts.py:46-51 | after a successful delete nobody, owner or not, can read that id |
| `Contacts.DeleteRemovesOne` | src/repository/contacts.py:46-51 | a successful delete removes one copy of the returned row and keeps the remaining rows in storage order around the gap |
| `Contacts.MatchByName` | src/repository/contacts.py:54-55 | the result holds exactly the caller's contacts with that name, and it equals the caller's list filtered by name, in storage order |
| `Contacts.MatchBySurname` | src/repository/contacts.py:58-59 | the result holds exactly the caller's contacts with that surname, and it equals the caller's list filtered by surname, in storage order |
| `Contacts.MatchByEmail` | src/repository/contacts.py:62-63 | the result is `None` exactly when the caller owns no contact with that email; otherwise it is the first such contact in storage order |
| `Birthdays.SameMonthBranch` | src/repository/contacts.py:71-80 | the same-month query returns exactly the caller's contacts born in today's month on a day from `today.day` to `today.day + 6`, in any year |
| `Birthdays.DayTexts` | src/repository/contacts.py:72-73 | there are seven day texts, one per window day; what each reads back as is stated by `Birthdays.DayTextsReadBack` |
| `Birthdays.MonthText` | src/repository/contacts.py:75-77 | the month text is two characters and reads back as `today.month` |
| `Birthdays.SameMonthFilter` | src/repository/contacts.py:79-80 | the same-month filter: the caller's rows whose birthday month equals the month text and whose day equals one of the day texts, read as numbers; `Birthdays.SameMonthBranch` states what it selects |
| `Birthdays.DayTextsReadBack` | src/repository/contacts.py:72-73 | the seven padded day strings are two characters each and denote `today.day + 0` to `today.day + 6` |
| `Birthdays.NextWeek` | src/repository/contacts.py:83 | the seven month-day pairs are those of `today + 0..6` days, in order; building them raises the overflow error exactly when `today + 6` days is past 9999-12-31 |
| `Birthdays.WeekDistinct` | src/repository/contacts.py:83 | the seven days of the window fall on seven different month-day pairs |
| `Birthdays.RolloverQueries` | src/repository/contacts.py:85-88 | the rollover loop returns exactly the caller's contacts whose birthday month and day is one of the listed pairs |
| `Birthdays.RolloverMultiset` | src/repository/contacts.py:85-88 | with distinct pairs, the loop returns each matching row as often as the table holds it |
| `Birthdays.SameMonthFitsWindow` | src/repository/contacts.py:71 | when `today.day <= 21` the sixth day after today is still in the same month, and still in the valid date range |
| `Birthdays.WindowSameMonth` | src/repository/contacts.py:71-80 | when `today.day <= 21`, a birthday is in the seven-day window exactly when it has today's month and a day from `today.day` to `today.day + 6` |
| `Birthdays.SameMonthIsWindow` | src/repository/contacts.py:71-80 | when `today.day <= 21` the same-month query returns the window's rows, as the same sequence |
| `Birthdays.RolloverIsWindow` | src/repository/contacts.py:83-88 | the rollover query returns the caller's rows in the window, each as often as the table holds it |
| `Birthdays.BranchEquivalence` | src/repository/contacts.py:71-88 | when `today.day <= 21` the rollover query would succeed and return the same rows, with the same multiplicities, as the same-month query |
| `Birthdays.GetBirthdaysWeek` | src/repository/contacts.py:66-90 | the result fails only past 9999-12-31 and only on the rollover path; otherwise it holds exactly the caller's contacts whose birthday recurs within the seven days starting today |
| `Birthdays.BirthdaysWeekExact` | src/repository/contacts.py:66-90 | on success, the result is the caller's window rows with their multiplicities from the table |
| `Birthdays.BirthdaysWeekNoRepeats` | src/repository/contacts.py:83-90 | a table without repeated rows gives a result without repeated rows |
| `Birthdays.SameMonthExample` | src/repository/contacts.py:71-80 | on June 10, birthdays on June 10 and June 16 come back; June 17, July 12 and another user's June 12 do not |
| `Birthdays.RolloverExample` | src/repository/contacts.py:83-88 | on June 28 of a year, July 4 comes back and July 5 does not |
| `Birthdays.LeapDayExample` | src/repository/contacts.py:83 | a February 29 birthday is in the window from February 25 in 2024, but not in 2023, when the window steps from February 28 to March 1 |

## Left out

- `date.today()` (src/repository/contacts.py:68) reads the clock. `today` is a parameter of `Birthdays.GetBirthdaysWeek`.
- Session mechanics are not modelled: `db.add`, `commit`, `refresh`, `db.delete` and the lazy `user` relationship. The table is a value, and a mutating operation returns the new value.
- `created_at` and `updated_at` are left out. They are filled from the database clock (`func.now()`).
- The unique constraints on email and phone are left out, so is the `IntegrityError` they raise on create or update, and so is the cascade delete from `users`. These are database constraints, not repository code. `Contacts.MatchByEmail` returns the first match whether or not emails are unique.
- Contacts.PostContact: ids are unbounded integers and create never fails. The `id` column is a 32-bit `Integer` primary key (src/database/models.py:10), so on Postgres the id sequence stops past 2147483647 and an insert then raises; that error is not modelled.
- `Contacts.Valid` states only the primary-key invariant: ids are unique and below the next value of the id sequence.
- `user_id` is an `int`. The column is nullable, but this layer always sets it, and a NULL owner matches no caller.
- `Contacts.GetContacts` takes `skip` and `limit` as natural numbers. A negative offset or limit is rejected by the database, and that error is not modelled.
- No query has an `ORDER BY`. The model takes the stored order as the order rows come back in, and assumes every query sees the same order.
- `date_part` returns a number and is compared with the padded strings. The model compares the birthday's month and day with the numbers those strings denote, which is how the database casts them.
- The FastAPI routers (`None` becomes 404), authentication, request validation, async execution and `main.py`'s health check are left out. So is the race between concurrent updates of one contact.
- `User` keeps only `id`, `username` and `email`. The password hash, avatar and refresh token play no part in this layer.
