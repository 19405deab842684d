/**
 * A tracked habit and its periodicity-aware streak: the state kept on a
 * habit (`completed`, `streak`, `last_completed_date`), the date on which
 * the next completion is expected, and the check-off rule that extends,
 * resets or keeps the streak.
 */
module Habits {
  import opened Wrappers
  import opened Calendar

  /** A reminder time of day with minute precision, as "%H:%M" yields it. */
  datatype Clock = Clock(hour: int, minute: int)
  type ReminderTime = t: Clock | 0 <= t.hour < 24 && 0 <= t.minute < 60 witness Clock(0, 0)

  const Daily := "daily"
  const Weekly := "weekly"
  const Monthly := "monthly"

  /** The periodicities a habit may be created with. */
  predicate IsKnownPeriodicity(p: string) {
    p == Daily || p == Weekly || p == Monthly
  }

  const PeriodicityError := "Periodicity must be one of: daily, weekly, monthly."

  /** The progress fields of a habit. */
  datatype Progress = Progress(completed: bool, streak: int, lastCompletedDate: Option<Date>) {
    /** A streak is counted exactly when there is a last completion. */
    predicate Valid() {
      streak >= 0 && (lastCompletedDate.None? <==> streak == 0)
    }
  }

  /** The progress of a habit that has never been checked off. */
  const InitialProgress := Progress(false, 0, None)

  /**
   * The date that continues a streak whose last completion was `last`: one
   * day later for "daily", seven for "weekly", and for every other
   * periodicity the same day of the next month, clamped to that month's end.
   */
  function ExpectedNext(last: Date, periodicity: string): (r: Date)
    ensures Before(last, r)
    ensures periodicity == Daily ==> Ordinal(r) == Ordinal(last) + 1
    ensures periodicity == Weekly ==> Ordinal(r) == Ordinal(last) + 7
    ensures periodicity != Daily && periodicity != Weekly ==>
      && MonthIndex(r) == MonthIndex(last) + 1
      && r.day <= last.day
      && (r.day == last.day || r.day == DaysInMonth(r.year, r.month))
  {
    if periodicity == Daily then
      AddDaysIsLater(last, 1);
      AddDays(last, 1)
    else if periodicity == Weekly then
      AddDaysIsLater(last, 7);
      AddDays(last, 7)
    else
      SameDayNextMonth(last)
  }

  /**
   * The progress after a check-off on `onDate`. A first completion starts
   * the streak at 1; otherwise a completion on the expected date extends
   * it, one after it resets it to 1, and one before it keeps it. Every
   * check-off marks the habit completed and records `onDate`.
   */
  function Step(p: Progress, periodicity: string, onDate: Date): (r: Progress)
    ensures r.completed && r.lastCompletedDate == Some(onDate)
    ensures r.streak >= p.streak || r.streak == 1
    ensures r.streak <= p.streak + 1 || r.streak == 1
    ensures (p.lastCompletedDate.Some? ==> p.streak >= 1) ==> r.streak >= 1
    ensures p.Valid() ==> r.Valid()
  {
    var streak :=
      if p.lastCompletedDate.None? then 1
      else
        var expected := ExpectedNext(p.lastCompletedDate.value, periodicity);
        if onDate == expected then p.streak + 1
        else if Before(expected, onDate) then 1
        else p.streak;
    Progress(true, streak, Some(onDate))
  }

  /** The first-ever completion starts the streak at exactly 1, whatever the date. */
  lemma FirstCompletionStartsStreak(p: Progress, periodicity: string, onDate: Date)
    requires p.lastCompletedDate.None?
    ensures Step(p, periodicity, onDate).streak == 1
  {
  }

  /**
   * After a first completion: a completion on the expected date extends the
   * streak by one, one strictly after it resets it to exactly 1, and one
   * strictly before it keeps it.
   */
  lemma ExpectedDateRule(p: Progress, periodicity: string, onDate: Date)
    requires p.lastCompletedDate.Some?
    ensures var expected := ExpectedNext(p.lastCompletedDate.value, periodicity);
      var s := Step(p, periodicity, onDate).streak;
      && (onDate == expected ==> s == p.streak + 1)
      && (Before(expected, onDate) ==> s == 1)
      && (Before(onDate, expected) ==> s == p.streak)
  {
  }

  /** The period of a daily or weekly habit, in days. */
  function PeriodInDays(periodicity: string): nat {
    if periodicity == Daily then 1 else 7
  }

  /**
   * For a daily or weekly habit the rule is about the number of days since
   * the last completion: exactly one period extends the streak, more than
   * one period resets it to 1, and less than one (the same day, or any
   * earlier day) keeps it.
   */
  lemma DayGapRule(p: Progress, periodicity: string, onDate: Date)
    requires periodicity == Daily || periodicity == Weekly
    requires p.lastCompletedDate.Some?
    ensures var gap := Ordinal(onDate) - Ordinal(p.lastCompletedDate.value);
      var s := Step(p, periodicity, onDate).streak;
      && (gap == PeriodInDays(periodicity) ==> s == p.streak + 1)
      && (gap > PeriodInDays(periodicity) ==> s == 1)
      && (gap < PeriodInDays(periodicity) ==> s == p.streak)
  {
    BeforeIffOrdinalLess(ExpectedNext(p.lastCompletedDate.value, periodicity), onDate);
  }

  /**
   * For a monthly habit: a completion two or more calendar months after the
   * last one resets the streak, and one in the same month as the last one,
   * or in an earlier month, keeps it.
   */
  lemma MonthGapRule(p: Progress, onDate: Date)
    requires p.lastCompletedDate.Some?
    ensures var last := p.lastCompletedDate.value;
      var s := Step(p, Monthly, onDate).streak;
      && (MonthIndex(onDate) > MonthIndex(last) + 1 ==> s == 1)
      && (MonthIndex(onDate) <= MonthIndex(last) ==> s == p.streak)
  {
  }

  /**
   * A check-off dated before the last completion ("time travel") keeps the
   * streak but still moves the last completion back to that earlier date.
   */
  lemma EarlierThanLastKeepsStreak(p: Progress, periodicity: string, onDate: Date)
    requires p.lastCompletedDate.Some? && Before(onDate, p.lastCompletedDate.value)
    ensures Step(p, periodicity, onDate).streak == p.streak
    ensures Step(p, periodicity, onDate).lastCompletedDate == Some(onDate)
  {
  }

  /** The progress after checking off on each of `dates` in turn. */
  function CheckOffAll(p: Progress, periodicity: string, dates: seq<Date>): Progress
    decreases |dates|
  {
    if dates == [] then p else CheckOffAll(Step(p, periodicity, dates[0]), periodicity, dates[1..])
  }

  /** `n` dates starting at `start`, each the expected date after the one before. */
  function OnSchedule(start: Date, periodicity: string, n: nat): (r: seq<Date>)
    ensures |r| == n
    ensures n > 0 ==> r[0] == start
    decreases n
  {
    if n == 0 then [] else [start] + OnSchedule(ExpectedNext(start, periodicity), periodicity, n - 1)
  }

  /** Checking off on each of the next `n` expected dates adds `n` to the streak. */
  lemma {:induction false} OnScheduleExtends(p: Progress, periodicity: string, n: nat)
    requires p.lastCompletedDate.Some?
    ensures var dates := OnSchedule(ExpectedNext(p.lastCompletedDate.value, periodicity), periodicity, n);
      CheckOffAll(p, periodicity, dates).streak == p.streak + n
    decreases n
  {
    var dates := OnSchedule(ExpectedNext(p.lastCompletedDate.value, periodicity), periodicity, n);
    if n > 0 {
      var q := Step(p, periodicity, dates[0]);
      assert dates[1..] == OnSchedule(ExpectedNext(q.lastCompletedDate.value, periodicity), periodicity, n - 1);
      OnScheduleExtends(q, periodicity, n - 1);
    }
  }

  /**
   * A new habit checked off on `start` and then on each expected date in
   * turn (consecutive days for "daily", every seventh day for "weekly") has
   * a streak equal to the number of check-offs.
   */
  lemma OnScheduleStreak(periodicity: string, start: Date, n: nat)
    requires n >= 1
    ensures CheckOffAll(InitialProgress, periodicity, OnSchedule(start, periodicity, n)).streak == n
  {
    var dates := OnSchedule(start, periodicity, n);
    var q := Step(InitialProgress, periodicity, start);
    assert dates[1..] == OnSchedule(ExpectedNext(start, periodicity), periodicity, n - 1);
    OnScheduleExtends(q, periodicity, n - 1);
  }

  /** A weekly habit done on 2025-01-06 and 2025-01-13, then missing a week until 2025-01-27. */
  lemma WeeklyExample()
    ensures var p1 := Step(InitialProgress, Weekly, Ymd(2025, 1, 6));
      var p2 := Step(p1, Weekly, Ymd(2025, 1, 13));
      var p3 := Step(p2, Weekly, Ymd(2025, 1, 27));
      p1.streak == 1 && p2.streak == 2 && p3.streak == 1
  {
  }

  /** A monthly habit done on 2025-01-31 is expected, and continued, on 2025-02-28. */
  lemma MonthlyExample()
    ensures ExpectedNext(Ymd(2025, 1, 31), Monthly) == Ymd(2025, 2, 28)
    ensures Step(Progress(true, 1, Some(Ymd(2025, 1, 31))), Monthly, Ymd(2025, 2, 28)).streak == 2
  {
  }

  /** A habit: what it is, its schedule and its progress. */
  class Habit {
    var name: string
    var description: string
    var goal: string
    var startDate: Date
    var periodicity: string
    var reminder: Option<ReminderTime>
    var completed: bool
    var streak: int
    var lastCompletedDate: Option<Date>

    /** A habit with the given details and no progress yet; daily and without a reminder unless told otherwise. */
    constructor (name: string, description: string, goal: string, startDate: Date,
                 periodicity: string := Daily, reminder: Option<ReminderTime> := None)
      ensures this.name == name && this.description == description && this.goal == goal
      ensures this.startDate == startDate && this.periodicity == periodicity && this.reminder == reminder
      ensures State() == InitialProgress
    {
      this.name := name;
      this.description := description;
      this.goal := goal;
      this.startDate := startDate;
      this.periodicity := periodicity;
      this.reminder := reminder;
      completed := false;
      streak := 0;
      lastCompletedDate := None;
    }

    /** The progress fields of this habit. */
    function State(): Progress
      reads this
    {
      Progress(completed, streak, lastCompletedDate)
    }

    /** The date that would continue the current streak, absent before the first completion. */
    function ExpectedNextDate(): (r: Option<Date>)
      reads this
      ensures r.None? <==> lastCompletedDate.None?
      ensures r.Some? ==> Before(lastCompletedDate.value, r.value)
      ensures r.Some? ==> r.value == ExpectedNext(lastCompletedDate.value, periodicity)
    {
      if lastCompletedDate.None? then None
      else Some(ExpectedNext(lastCompletedDate.value, periodicity))
    }

    /** Marks the habit completed on `onDate` and updates the streak. */
    method CheckOff(onDate: Date)
      modifies this`completed, this`streak, this`lastCompletedDate
      ensures State() == Step(old(State()), periodicity, onDate)
      ensures completed && lastCompletedDate == Some(onDate)
      ensures old(State().Valid()) ==> State().Valid() && streak >= 1
    {
      if lastCompletedDate.None? {
        streak := 1;
      } else {
        var expected := ExpectedNextDate();
        if expected.Some? && onDate == expected.value {
          streak := streak + 1;
        } else if expected.Some? && Before(expected.value, onDate) {
          streak := 1;
        }
      }
      completed := true;
      lastCompletedDate := Some(onDate);
    }

    /**
     * A habit built from form input whose date and time have already been
     * parsed; fails when the periodicity is not one of the known three.
     */
    static method FromForm(name: string, description: string, goal: string, startDate: Date,
                           periodicity: string := Daily, reminder: Option<ReminderTime> := None)
      returns (r: Result<Habit, string>)
      ensures r.Failure? <==> !IsKnownPeriodicity(periodicity)
      ensures r.Failure? ==> r.error == PeriodicityError
      ensures r.Success? ==> fresh(r.value)
      ensures r.Success? ==> r.value.name == name && r.value.description == description && r.value.goal == goal
      ensures r.Success? ==> r.value.startDate == startDate && r.value.periodicity == periodicity
      ensures r.Success? ==> r.value.reminder == reminder && r.value.State() == InitialProgress
    {
      if !IsKnownPeriodicity(periodicity) {
        return Failure(PeriodicityError);
      }
      var habit := new Habit(name, description, goal, startDate, periodicity, reminder);
      return Success(habit);
    }
  }
}
