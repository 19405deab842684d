/**
 * Read-only analytics over habit rows as the store returns them: every
 * habit as a view, the habits of one periodicity, the longest streak
 * overall and the streak of one habit. Every query is a function, so none
 * of them can change the rows it is given.
 */
module Analytics {
  import opened Wrappers

  /** A stored habit row; the keys a row may lack are optional. */
  datatype Row = Row(
    id: int,
    name: string,
    periodicity: Option<string>,
    streak: Option<int>,
    lastCompletedDate: Option<string>)

  /** An immutable view of a habit row. */
  datatype HabitView = HabitView(
    id: int,
    name: string,
    periodicity: string,
    streak: int,
    lastCompletedDate: Option<string>)

  /** The view of one row: a missing periodicity reads as "daily", a missing streak as 0. */
  function AsView(row: Row): (v: HabitView)
    ensures v.id == row.id && v.name == row.name && v.lastCompletedDate == row.lastCompletedDate
    ensures row.periodicity.Some? ==> v.periodicity == row.periodicity.value
    ensures row.periodicity.None? ==> v.periodicity == "daily"
    ensures row.streak.Some? ==> v.streak == row.streak.value
    ensures row.streak.None? ==> v.streak == 0
  {
    HabitView(row.id, row.name, row.periodicity.GetOr("daily"), row.streak.GetOr(0), row.lastCompletedDate)
  }

  /** Every habit, one view per row, in the order of the rows. */
  function ListAllHabits(rows: seq<Row>): (views: seq<HabitView>)
    ensures |views| == |rows|
    ensures forall i :: 0 <= i < |rows| ==>
      && views[i].id == rows[i].id
      && views[i].name == rows[i].name
      && (views[i].periodicity == if rows[i].periodicity.Some? then rows[i].periodicity.value else "daily")
      && (views[i].streak == if rows[i].streak.Some? then rows[i].streak.value else 0)
      && views[i].lastCompletedDate == rows[i].lastCompletedDate
    decreases |rows|
  {
    if rows == [] then [] else [AsView(rows[0])] + ListAllHabits(rows[1..])
  }

  /** `xs` is `ys` with some elements left out and the rest kept in order. */
  ghost predicate IsSubsequence<T>(xs: seq<T>, ys: seq<T>)
    decreases |ys|
  {
    if xs == [] then true
    else if ys == [] then false
    else if xs[0] == ys[0] then IsSubsequence(xs[1..], ys[1..])
    else IsSubsequence(xs, ys[1..])
  }

  /** The elements of `s` that `keep` accepts, in their order (Python's `filter`). */
  function Filter<T(!new)>(s: seq<T>, keep: T -> bool): (r: seq<T>)
    ensures IsSubsequence(r, s)
    ensures forall i :: 0 <= i < |r| ==> keep(r[i])
    ensures forall x :: multiset(r)[x] == if keep(x) then multiset(s)[x] else 0
    decreases |s|
  {
    if s == [] then []
    else
      var rest := Filter(s[1..], keep);
      assert s == [s[0]] + s[1..];
      if keep(s[0]) then [s[0]] + rest else rest
  }

  /** The habits of periodicity `p`, judged by the row's stored value and not by its default. */
  function RowsWithPeriodicity(rows: seq<Row>, p: string): seq<Row> {
    Filter(rows, (row: Row) => row.periodicity == Some(p))
  }

  /**
   * The habits whose stored periodicity equals `p`, as views in row order;
   * empty, not an error, when no row has it.
   */
  function ListByPeriodicity(rows: seq<Row>, p: string): (views: seq<HabitView>)
    ensures views == ListAllHabits(RowsWithPeriodicity(rows, p))
    ensures forall i :: 0 <= i < |views| ==> views[i].periodicity == p
    ensures views == [] <==> forall i :: 0 <= i < |rows| ==> rows[i].periodicity != Some(p)
  {
    var m := RowsWithPeriodicity(rows, p);
    assert m != [] ==> m[0] in multiset(m);
    assert forall i :: 0 <= i < |rows| ==> rows[i] in multiset(rows);
    ListAllHabits(m)
  }

  /**
   * When every row stores its periodicity, listing by periodicity is the
   * same as listing all habits and keeping the views of that periodicity.
   */
  lemma {:induction false} ListByPeriodicityFiltersViews(rows: seq<Row>, p: string)
    requires forall i :: 0 <= i < |rows| ==> rows[i].periodicity.Some?
    ensures ListByPeriodicity(rows, p) == Filter(ListAllHabits(rows), (v: HabitView) => v.periodicity == p)
    decreases |rows|
  {
    if rows != [] {
      ListByPeriodicityFiltersViews(rows[1..], p);
      assert ListAllHabits(rows)[1..] == ListAllHabits(rows[1..]);
    }
  }

  /** The index of the first view with the greatest streak, as `max` by streak picks it. */
  function FirstMaxStreak(views: seq<HabitView>): (k: nat)
    requires |views| > 0
    ensures k < |views|
    ensures forall j :: 0 <= j < |views| ==> views[j].streak <= views[k].streak
    ensures forall j :: 0 <= j < k ==> views[j].streak < views[k].streak
    decreases |views|
  {
    if |views| == 1 then 0
    else
      var k := FirstMaxStreak(views[..|views| - 1]);
      if views[|views| - 1].streak > views[k].streak then |views| - 1 else k
  }

  /** The streak a row's view shows. */
  function StreakOf(row: Row): int {
    row.streak.GetOr(0)
  }

  /** Row `k` has the greatest streak of all, and no row before it does. */
  ghost predicate IsFirstLongest(rows: seq<Row>, k: int) {
    && 0 <= k < |rows|
    && (forall j :: 0 <= j < |rows| ==> StreakOf(rows[j]) <= StreakOf(rows[k]))
    && (forall j :: 0 <= j < k ==> StreakOf(rows[j]) < StreakOf(rows[k]))
  }

  /**
   * The id and streak of the first habit with the longest streak, or
   * `(None, 0)` when there are no habits.
   */
  function LongestRunStreak(rows: seq<Row>): (r: (Option<int>, int))
    ensures rows == [] ==> r == (None, 0)
    ensures rows != [] ==> exists k :: IsFirstLongest(rows, k) && r == (Some(rows[k].id), StreakOf(rows[k]))
  {
    var views := ListAllHabits(rows);
    if views == [] then (None, 0)
    else
      var k := FirstMaxStreak(views);
      assert IsFirstLongest(rows, k);
      (Some(views[k].id), views[k].streak)
  }

  /** Row `k` is the first row with id `id`. */
  ghost predicate IsFirstWithId(rows: seq<Row>, id: int, k: int) {
    0 <= k < |rows| && rows[k].id == id && forall j :: 0 <= j < k ==> rows[j].id != id
  }

  /** The index of the first row with id `id`, if any. */
  function FirstWithId(rows: seq<Row>, id: int): (k: Option<nat>)
    ensures k.Some? ==> IsFirstWithId(rows, id, k.value)
    ensures k.None? ==> forall j :: 0 <= j < |rows| ==> rows[j].id != id
    decreases |rows|
  {
    if rows == [] then None
    else if rows[0].id == id then Some(0)
    else
      match FirstWithId(rows[1..], id)
      case None => None
      case Some(k) => Some(k + 1)
  }

  /**
   * The streak of the first row with id `habitId` (0 when that row has no
   * streak), or 0 when no row has that id.
   */
  function LongestRunStreakFor(rows: seq<Row>, habitId: int): (s: int)
    ensures (forall j :: 0 <= j < |rows| ==> rows[j].id != habitId) ==> s == 0
    ensures forall k :: IsFirstWithId(rows, habitId, k) ==> s == StreakOf(rows[k])
  {
    match FirstWithId(rows, habitId)
    case None => 0
    case Some(k) => StreakOf(rows[k])
  }

  /**
   * A row without a stored periodicity is listed as "daily" by
   * `ListAllHabits` but is never among the habits `ListByPeriodicity` finds,
   * whatever periodicity is asked for.
   */
  lemma MissingPeriodicityIsNeverMatched(rows: seq<Row>, i: nat, p: string)
    requires i < |rows|
    requires rows[i].periodicity.None?
    ensures i < |ListAllHabits(rows)| && ListAllHabits(rows)[i].periodicity == "daily"
    ensures rows[i] !in RowsWithPeriodicity(rows, p)
  {
  }
}
