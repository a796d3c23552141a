/** The activity table (`whole_df`) and the run / date-range filter that yields
    `filtered_df` (app.py). */
module Activities {
  import opened Frames

  /** One row of the activity table, reduced to the columns the model uses. Timestamps
      are whole seconds since the epoch and the distance is in metres. The ISO fields
      stand for what Polars' `dt.iso_year`, `dt.week` and `dt.weekday` derive from the
      start date; they are inputs here, not computed. */
  datatype Activity = Activity(
    id: int,
    sportType: string,
    startDate: int,
    distance: int,
    isoYear: nat,
    isoWeek: nat,
    weekday: int)

  const SecondsPerDay: int := 86400

  /** `d.replace(hour=23, minute=59, second=59)`: the last second of the day `d` falls in. */
  function EndOfDay(d: int): (e: int)
    ensures d <= e < d + SecondsPerDay
    ensures e / SecondsPerDay == d / SecondsPerDay
    ensures e % SecondsPerDay == SecondsPerDay - 1
  {
    d - d % SecondsPerDay + SecondsPerDay - 1
  }

  predicate IsRun(a: Activity)
  {
    a.sportType == "Run"
  }

  /** `is_between(start, end)`; Polars closes the interval at both ends by default. */
  predicate StartsBetween(a: Activity, start: int, end: int)
  {
    start <= a.startDate <= end
  }

  /** The rows filtered_df keeps: runs starting from `start` up to the last second of the
      day of `end`, both ends included. */
  predicate Kept(a: Activity, start: int, end: int)
  {
    IsRun(a) && start <= a.startDate <= EndOfDay(end)
  }

  /** filtered_df: first the runs, then those starting in the date range. It holds exactly
      the kept rows of `whole`, each as often as in `whole`. */
  function FilteredActivities(whole: seq<Activity>, start: int, end: int): (r: seq<Activity>)
    ensures forall a :: a in r <==> a in whole && Kept(a, start, end)
    ensures forall a :: multiset(r)[a] == if Kept(a, start, end) then multiset(whole)[a] else 0
  {
    var inRange := (a: Activity) => StartsBetween(a, start, EndOfDay(end));
    var keep := (a: Activity) => Kept(a, start, end);
    FilterTwice(whole, IsRun, inRange, keep);
    Filter(Filter(whole, IsRun), inRange)
  }

  /** filtered_df keeps the order of whole_df: its i-th row is the row of `whole` at the
      i-th of an increasing list of positions, each holding a kept row. */
  lemma FilteredActivitiesKeepOrder(whole: seq<Activity>, start: int, end: int)
    returns (idx: seq<nat>)
    ensures |idx| == |FilteredActivities(whole, start, end)|
    ensures forall i, j :: 0 <= i < j < |idx| ==> idx[i] < idx[j]
    ensures forall i :: 0 <= i < |idx| ==>
      idx[i] < |whole| && Kept(whole[idx[i]], start, end) &&
      FilteredActivities(whole, start, end)[i] == whole[idx[i]]
  {
    var inRange := (a: Activity) => StartsBetween(a, start, EndOfDay(end));
    var keep := (a: Activity) => Kept(a, start, end);
    FilterTwice(whole, IsRun, inRange, keep);
    idx := FilterIsOrderedSubsequence(whole, keep);
  }

  /** The time filter is inclusive on both ends: a run starting at `start` or in the last
      second of the end day is kept, one a second outside either end is not. */
  lemma FilterBoundaries(run: Activity, start: int, end: int)
    requires IsRun(run)
    ensures run.startDate == start ==> start <= EndOfDay(end) ==> Kept(run, start, end)
    ensures run.startDate == EndOfDay(end) && start <= run.startDate ==> Kept(run, start, end)
    ensures run.startDate == start - 1 || run.startDate == EndOfDay(end) + 1 ==> !Kept(run, start, end)
  {
  }
}
