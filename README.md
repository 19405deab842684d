# Habit tracker: streak engine and analytics

A model of the two parts of the habit tracker that hold its logic.

- **The streak engine** (`app/models/habit.py`). A habit has a name, a
  description, a goal, a start date, a periodicity (daily, weekly or
  monthly) and an optional reminder time. Its progress is `completed`,
  `streak` and `last_completed_date`. Checking the habit off on a date works
  like this:
  - the first completion starts the streak at 1;
  - otherwise the engine computes the expected next date from the last
    completion: one day later, seven days later, or the same day of the next
    month clamped to that month's length;
  - a completion on that date extends the streak by one;
  - a completion after it resets the streak to 1;
  - a completion before it keeps the streak.

  The habit is then marked completed and the new date is recorded.
  `from_form` builds a habit with no progress and rejects an unknown
  periodicity.
- **The analytics queries** (`app/analysis/analyse.py`). Four read-only
  queries over stored habit rows:
  - list every habit as an immutable view;
  - list the habits of one periodicity;
  - the longest streak overall, with the id of the first habit that has it;
  - the streak of one habit by id.

The Dafny modules:

- `Wrappers` (`wrappers.dfy`) holds Option and Result.
- `Calendar` (`calendar.dfy`) models Python's `datetime.date`:
  - Gregorian leap years and month lengths, standing in for
    `calendar.monthrange`;
  - the ordinal day number of `date.toordinal`;
  - adding days;
  - the lexicographic comparison of dates, proved to be the order of the
    ordinals.
- `Habits` (`habit.dfy`) holds:
  - the `Habit` class, whose `CheckOff` updates its progress fields in place;
  - the pure transition `Step` that specifies it;
  - the expected-date function and the lemmas about the rule.
- `Analytics` (`analyse.dfy`) holds the rows, the views and the four queries
  as functions. Functions cannot change their arguments, so "no query
  modifies its input" holds by construction.

A few points where the model follows the code rather than its documentation:

- `Habit.periodicity` is a string. Only `from_form` checks it; the dataclass
  constructor accepts any string, because the `Literal` annotation is not
  enforced when the program runs. `_expected_next_date` treats every value
  other than "daily" and "weekly" as monthly, and `ExpectedNext` does the same.
- The habit invariant proved (`Progress.Valid`): the streak is 0 exactly when
  there is no last completion. `CheckOff` does not require it, because the
  source does not check it. It only keeps it: if it held before a check-off,
  it holds after, and the streak is then at least 1.
- An early check-off, even one dated before the last completion, keeps the
  streak and still moves `last_completed_date` to the new date
  (`EarlierThanLastKeepsStreak`).
- `list_by_periodicity` filters on the row's stored periodicity, while
  `_as_view` shows a missing periodicity as "daily". So a row without a stored
  periodicity is listed as "daily" by `list_all_habits` but is never returned
  by `list_by_periodicity`, whatever the rows around it
  (`MissingPeriodicityIsNeverMatched`). When every
  row stores its periodicity, the two agree (`ListByPeriodicityFiltersViews`).

## Model

| member | source | states |
|---|---|---|
| `Calendar.DaysInMonth` | app/models/habit.py:102 | the length of a month is 28 to 31 days; it is 31 exactly for January, March, May, July, August, October and December, 30 exactly for April, June, September and November; February has 29 days in leap years and 28 otherwise |
| `Calendar.NextDay` | app/models/habit.py:90 | the day after a date is a valid date whose ordinal is one more |
| `Calendar.AddDays` | app/models/habit.py:90-93 | adding `n` days gives a valid date whose ordinal is exactly `n` more |
| `Calendar.SameDayNextMonth` | app/models/habit.py:95-104 | the result is a valid date in the month right after (December to January of the next year), its day is no later than the original day and equals it unless clamped to the month's last day, and it is strictly later |
| `Calendar.BeforeIffOrdinalLess` | app/models/habit.py:65-67 | comparing dates as (year, month, day) agrees with comparing their ordinal day numbers, and equal ordinals mean equal dates |
| `Calendar.AddDaysIsLater` | app/models/habit.py:89-93 | adding a positive number of days gives a strictly later date |
| `Habits.ExpectedNext` | app/models/habit.py:89-104 | the expected date is strictly after the last date; it is 1 day later for daily, 7 days later for weekly, and otherwise in the next month with the day clamped to that month's length |
| `Habits.Habit.ExpectedNextDate` | app/models/habit.py:78-104 | there is an expected date exactly when there is a last completion; it is strictly after it and is `ExpectedNext` of the last date and the periodicity (1 day, 7 days or the clamped next month) |
| `Habits.Step` | app/models/habit.py:56-76 | after a check-off the habit is completed and its last date is the check-off date; the streak only grows by at most one or resets to 1; a last date implying streak ≥ 1 before gives streak ≥ 1 after; the invariant "streak is 0 iff no last date" is preserved |
| `Habits.Habit.CheckOff` | app/models/habit.py:46-76 | the new progress is `Step` of the old progress, only the progress fields change, and the invariant is kept with streak ≥ 1 after |
| `Habits.FirstCompletionStartsStreak` | app/models/habit.py:59-60 | the first-ever completion sets the streak to exactly 1, whatever the date |
| `Habits.ExpectedDateRule` | app/models/habit.py:62-73 | after a first completion, a check-off on the expected date adds one to the streak, one strictly after it resets it to 1, and one strictly before it keeps it |
| `Habits.DayGapRule` | app/models/habit.py:62-73 | for daily and weekly habits, a gap of exactly one period extends the streak by one, a longer gap resets it to 1, and a shorter one (including 0 or negative) keeps it |
| `Habits.MonthGapRule` | app/models/habit.py:62-73 | for monthly habits, a completion two or more months later resets the streak to 1, and one in the same or an earlier month keeps it |
| `Habits.EarlierThanLastKeepsStreak` | app/models/habit.py:70-76 | a check-off dated before the last completion keeps the streak but records the earlier date |
| `Habits.OnScheduleExtends` | app/models/habit.py:62-66 | checking off on each of the next `n` expected dates in turn adds exactly `n` to the streak |
| `Habits.OnScheduleStreak` | app/models/habit.py:59-66 | a new habit checked off on a start date and then on each expected date has streak equal to the number of check-offs |
| `Habits.WeeklyExample` | app/models/habit.py:62-69 | a weekly habit done on 2025-01-06, 2025-01-13 and then 2025-01-27 has streaks 1, 2, 1 |
| `Habits.MonthlyExample` | app/models/habit.py:95-104 | the expected date after 2025-01-31 for a monthly habit is 2025-02-28, and checking off then extends the streak |
| `Habits.Habit.constructor` | app/models/habit.py:36-44 | a new habit keeps the given details, is daily with no reminder unless given otherwise, and starts with streak 0, not completed and no last date |
| `Habits.Habit.FromForm` | app/models/habit.py:130-146 | fails, with the source's message, exactly when the periodicity is not daily, weekly or monthly; otherwise returns a fresh habit with the given details (daily with no reminder unless given otherwise) and no progress |
| `Analytics.AsView` | app/analysis/analyse.py:45-53 | the view has the row's id, name and last date, the row's periodicity or "daily" when it has none, and the row's streak or 0 when it has none |
| `Analytics.ListAllHabits` | app/analysis/analyse.py:45-61 | one view per row in row order, with the row's id, name and last date, its periodicity or "daily" when missing, and its streak or 0 when missing |
| `Analytics.Filter` | app/analysis/analyse.py:66 | the result is a subsequence of the input, every element is accepted, and every accepted element keeps its number of occurrences while the others have none |
| `Analytics.ListByPeriodicity` | app/analysis/analyse.py:64-66 | lists exactly the views of the rows whose stored periodicity is the query, in order; every view returned has that periodicity; the list is empty exactly when no row has it |
| `Analytics.ListByPeriodicityFiltersViews` | app/analysis/analyse.py:59-66 | when every row stores a periodicity, listing by periodicity equals filtering the list of all views |
| `Analytics.MissingPeriodicityIsNeverMatched` | app/analysis/analyse.py:45-66 | in any list of rows, a row without a stored periodicity is shown as "daily" but is kept by no periodicity query |
| `Analytics.FirstMaxStreak` | app/analysis/analyse.py:78 | the chosen view has a streak at least every other view's, and every earlier view's streak is strictly smaller (the first maximum) |
| `Analytics.LongestRunStreak` | app/analysis/analyse.py:69-79 | `(None, 0)` on no rows; otherwise the id and streak of the first row whose streak is at least every row's |
| `Analytics.FirstWithId` | app/analysis/analyse.py:87 | finds the first row with the id, or reports that no row has it |
| `Analytics.LongestRunStreakFor` | app/analysis/analyse.py:82-88 | the streak of the first row with the id (0 if that row has none), and 0 when no row has the id |

## Left out

- The command-line menu, console input and output, the clocks
  (`date.today()`, `datetime.now()`) and rebuilding a habit from a stored row
  (`app/cli.py`) are not part of this model. They are I/O around the engine.
- The SQLite store (`app/db/database.py`), the reminder thread
  (`app/models/reminder.py`) and the user record (`app/models/user.py`) are
  not part of this model. They are a foreign library, concurrency and timing,
  and a record with no behaviour.
- `print_summary` only prints.
- Habits.Habit.FromForm: takes the start date and reminder time already
  parsed. The `strptime` parsing of "%Y-%m-%d" and "%H:%M", and its
  format errors, are library behaviour. A start date is a date (the parsed
  datetime is at midnight).
- Habits.Habit.CheckOff: `on_date` is required. The default to today's date
  is a clock read.
- Calendar.AddDays: years are unbounded. Python's dates stop at 9999-12-31 and
  raise an overflow error past it. The model, and so `ExpectedNext`, goes on
  into year 10000 and later.
- Analytics.ListAllHabits: a row's `id` and `name` are always present and
  already of the right type. The store's schema guarantees this. The
  `KeyError` on a missing key and the `int()`/`str()` conversions are not
  modelled. A row holds only the columns the queries read.
- Analytics.ListAllHabits: an absent optional field stands for a missing key
  only. A key present with the value None is not modelled: `_as_view` would
  then give a view whose periodicity is None, and `int(None)` on a streak of
  None would raise TypeError in `_as_view` and `longest_run_streak_for`. The
  store declares both columns NOT NULL with defaults, so its rows never hold
  None there.
