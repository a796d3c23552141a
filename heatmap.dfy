/** `heatmap_chart`'s table (app.py): activities grouped into one cell per
    (ISO year, ISO week, weekday), with the summed distance, the earliest start and the
    ids of the cell's activities; then day numbers named and a "year - week" label added. */
module Heatmap {
  import opened Common
  import opened Frames
  import opened Activities
  import opened WeekOrder

  datatype CellKey = CellKey(year: nat, week: nat, day: int)

  /** One aggregated cell: `kms` summed (here in metres), `start_date` minimum, `id` list. */
  datatype Cell = Cell(distance: int, date: int, ids: seq<int>)

  function KeyOf(a: Activity): CellKey
  {
    CellKey(a.isoYear, a.isoWeek, a.weekday)
  }

  /** The group-by as a single pass over the rows: each row goes into the cell of its key,
      which it opens when it is the first with that key. */
  function Group(rows: seq<Activity>): (cells: map<CellKey, Cell>)
    ensures cells.Keys == set a | a in rows :: KeyOf(a)
  {
    if rows == [] then map[]
    else
      var init, a := rows[..|rows| - 1], rows[|rows| - 1];
      assert rows == init + [a];
      var cells, k := Group(init), KeyOf(a);
      cells[k := if k in cells then AddTo(cells[k], a) else Cell(a.distance, a.startDate, [a.id])]
  }

  function AddTo(c: Cell, a: Activity): Cell
  {
    Cell(c.distance + a.distance, Min(c.date, a.startDate), c.ids + [a.id])
  }

  // ----- The cell contents, stated per key -----

  function InCell(k: CellKey): Activity -> bool
  {
    a => KeyOf(a) == k
  }

  /** The rows of cell `k`, in table order. */
  function Members(rows: seq<Activity>, k: CellKey): seq<Activity>
  {
    Filter(rows, InCell(k))
  }

  function TotalDistance(ms: seq<Activity>): int
  {
    if ms == [] then 0 else TotalDistance(ms[..|ms| - 1]) + ms[|ms| - 1].distance
  }

  /** The minimum start date of a non-empty group. */
  function EarliestStart(ms: seq<Activity>): (d: int)
    requires ms != []
    ensures exists i :: 0 <= i < |ms| && d == ms[i].startDate
    ensures forall i :: 0 <= i < |ms| ==> d <= ms[i].startDate
  {
    if |ms| == 1 then ms[0].startDate
    else
      var init := ms[..|ms| - 1];
      var d := Min(EarliestStart(init), ms[|ms| - 1].startDate);
      assert forall i :: 0 <= i < |init| ==> init[i] == ms[i];
      d
  }

  function IdsOf(ms: seq<Activity>): (ids: seq<int>)
    ensures |ids| == |ms|
    ensures forall i :: 0 <= i < |ms| ==> ids[i] == ms[i].id
  {
    if ms == [] then [] else IdsOf(ms[..|ms| - 1]) + [ms[|ms| - 1].id]
  }

  /** What the aggregation makes of the members of one cell. */
  function Summary(ms: seq<Activity>): Cell
    requires ms != []
  {
    Cell(TotalDistance(ms), EarliestStart(ms), IdsOf(ms))
  }

  lemma SummaryOfOne(a: Activity)
    ensures Summary([a]) == Cell(a.distance, a.startDate, [a.id])
  {
    assert [a][..0] == [];
    assert TotalDistance([a]) == a.distance;
    assert IdsOf([a]) == [a.id];
  }

  lemma SummaryAppend(ms: seq<Activity>, a: Activity)
    requires ms != []
    ensures Summary(ms + [a]) == AddTo(Summary(ms), a)
  {
  }

  /** The single pass computes, for every key, the summary of exactly that key's rows;
      and it has a cell for a key exactly when some row has that key. */
  lemma {:induction false} GroupIsSummary(rows: seq<Activity>)
    ensures forall k :: k in Group(rows) <==> Members(rows, k) != []
    ensures forall k :: k in Group(rows) ==> Group(rows)[k] == Summary(Members(rows, k))
  {
    if rows != [] {
      var init, a := rows[..|rows| - 1], rows[|rows| - 1];
      assert rows == init + [a];
      GroupIsSummary(init);
      forall k ensures (k in Group(rows) <==> Members(rows, k) != [])
        && (k in Group(rows) ==> Group(rows)[k] == Summary(Members(rows, k)))
      {
        GroupStep(init, a, k);
      }
    }
  }

  /** One row more: only the cell of that row's key changes, by AddTo or by opening it. */
  lemma GroupStep(init: seq<Activity>, a: Activity, k: CellKey)
    requires k in Group(init) <==> Members(init, k) != []
    requires k in Group(init) ==> Group(init)[k] == Summary(Members(init, k))
    ensures k in Group(init + [a]) <==> Members(init + [a], k) != []
    ensures k in Group(init + [a]) ==> Group(init + [a])[k] == Summary(Members(init + [a], k))
  {
    var rows, before := init + [a], Members(init, k);
    Snoc(init, a, k);
    if KeyOf(a) != k {
      assert Members(rows, k) == before;
      assert k in Group(rows) ==> Group(rows)[k] == Group(init)[k];
    } else if before != [] {
      SummaryAppend(before, a);
      assert Members(rows, k) == before + [a];
      assert Group(rows)[k] == AddTo(Group(init)[k], a);
    } else {
      SummaryOfOne(a);
      assert Members(rows, k) == [a];
      assert Group(rows)[k] == Cell(a.distance, a.startDate, [a.id]);
    }
  }

  /** How one more row changes the cells and the members of a key. */
  lemma Snoc(init: seq<Activity>, a: Activity, k: CellKey)
    ensures var cells := Group(init);
      Group(init + [a]) == cells[KeyOf(a) := if KeyOf(a) in cells then AddTo(cells[KeyOf(a)], a)
                                             else Cell(a.distance, a.startDate, [a.id])]
    ensures Members(init + [a], k) == Members(init, k) + (if KeyOf(a) == k then [a] else [])
  {
    var rows := init + [a];
    assert rows[..|rows| - 1] == init;
  }

  /** A cell's members are exactly the rows with its key; its distance is the sum over
      them, its date the earliest of their start dates, and its ids theirs, in table order. */
  lemma CellContents(rows: seq<Activity>, k: CellKey)
    requires k in Group(rows)
    ensures var ms := Members(rows, k);
      && ms != []
      && (forall a :: a in ms <==> a in rows && KeyOf(a) == k)
      && Group(rows)[k].distance == TotalDistance(ms)
      && (forall i :: 0 <= i < |ms| ==> Group(rows)[k].date <= ms[i].startDate)
      && (exists i :: 0 <= i < |ms| && Group(rows)[k].date == ms[i].startDate)
      && Group(rows)[k].ids == IdsOf(ms)
  {
    GroupIsSummary(rows);
    forall a ensures a in Members(rows, k) <==> a in rows && KeyOf(a) == k {
      FilterMembership(rows, InCell(k), a);
    }
  }

  /** Every activity's id is in the id list of its own cell. */
  lemma IdInOwnCell(rows: seq<Activity>, i: nat)
    requires i < |rows|
    ensures KeyOf(rows[i]) in Group(rows)
    ensures rows[i].id in Group(rows)[KeyOf(rows[i])].ids
  {
    var k := KeyOf(rows[i]);
    GroupIsSummary(rows);
    var ms := Members(rows, k);
    FilterMembership(rows, InCell(k), rows[i]);
    var j :| 0 <= j < |ms| && ms[j] == rows[i];
    assert IdsOf(ms)[j] == rows[i].id;
  }

  predicate UniqueIds(rows: seq<Activity>)
  {
    forall i, j :: 0 <= i < j < |rows| ==> rows[i].id != rows[j].id
  }

  /** With distinct activity ids, an id is in no other cell's list: each id is in
      exactly one cell. */
  lemma IdInNoOtherCell(rows: seq<Activity>, i: nat, k: CellKey)
    requires i < |rows| && UniqueIds(rows)
    requires k in Group(rows) && k != KeyOf(rows[i])
    ensures rows[i].id !in Group(rows)[k].ids
  {
    GroupIsSummary(rows);
    var ms := Members(rows, k);
    forall j | 0 <= j < |ms| ensures IdsOf(ms)[j] != rows[i].id {
      FilterMembership(rows, InCell(k), ms[j]);
      var p :| 0 <= p < |rows| && rows[p] == ms[j];
      assert p != i;
    }
  }

  // ----- Naming the days and labelling the weeks -----

  const DayNames: seq<string> := ["Monday", "Tuesday", "Wednesday", "Thursday", "Friday", "Saturday", "Sunday"]

  /** `days`: weekday number i + 1 names the i-th day, Monday first. */
  const Days: map<int, string> := map d | 1 <= d <= 7 :: DayNames[d - 1]

  /** `replace_strict(days)`: a day number the map lacks is an error. */
  function DayName(day: int): (r: Option<string>)
    ensures r.Some? <==> 1 <= day <= 7
  {
    if day in Days then Some(Days[day]) else None
  }

  /** Days 1 to 7 are Monday to Sunday, each named differently. */
  lemma {:induction false} DayNamesMondayFirst()
    ensures DayName(1) == Some("Monday") && DayName(2) == Some("Tuesday")
    ensures DayName(3) == Some("Wednesday") && DayName(4) == Some("Thursday")
    ensures DayName(5) == Some("Friday") && DayName(6) == Some("Saturday")
    ensures DayName(7) == Some("Sunday")
    ensures forall d1, d2 :: 1 <= d1 < d2 <= 7 ==> DayName(d1) != DayName(d2)
  {
    forall d1, d2 | 1 <= d1 < d2 <= 7 ensures DayName(d1) != DayName(d2) {
      assert DayNames[d1 - 1] != DayNames[d2 - 1];
    }
  }

  /** A row of the heatmap's table: named day, "year - week" label, date, distance, ids. */
  datatype HeatCell = HeatCell(day: string, yearWeek: string, date: int, distance: int, ids: seq<int>)

  function Decorate(k: CellKey, c: Cell): (r: Option<HeatCell>)
    ensures r.Some? <==> 1 <= k.day <= 7
    ensures r.Some? ==> r.value.day == DayNames[k.day - 1]
    ensures r.Some? ==> r.value.yearWeek == LabelOf(WeekOfKey(k))
    ensures r.Some? ==> ParseLabel(r.value.yearWeek) == Some((k.year, k.week))
    ensures r.Some? ==> r.value.date == c.date && r.value.distance == c.distance && r.value.ids == c.ids
  {
    match DayName(k.day)
    case None => None
    case Some(name) => Some(HeatCell(name, LabelOf(WeekOfKey(k)), c.date, c.distance, c.ids))
  }

  /** The heatmap's table, keyed by cell. It exists when every weekday is 1 to 7 (always
      so for Polars' `dt.weekday`); it has one row per cell of Group, carrying that cell's
      date, distance and ids under a label that parses back to the cell's year and week. */
  function HeatmapSource(rows: seq<Activity>): (r: Option<map<CellKey, HeatCell>>)
    ensures r.Some? <==> forall a :: a in rows ==> 1 <= a.weekday <= 7
    ensures r.Some? ==> r.value.Keys == Group(rows).Keys
    ensures r.Some? ==> forall k :: k in r.value ==>
      && 1 <= k.day <= 7 && r.value[k].day == DayNames[k.day - 1]
      && r.value[k].yearWeek == LabelOf(WeekOfKey(k))
      && ParseLabel(r.value[k].yearWeek) == Some((k.year, k.week))
      && r.value[k].ids == Group(rows)[k].ids
      && r.value[k].distance == Group(rows)[k].distance
      && r.value[k].date == Group(rows)[k].date
  {
    var cells := Group(rows);
    if forall k :: k in cells ==> 1 <= k.day <= 7 then
      Some(map k | k in cells :: Decorate(k, cells[k]).value)
    else
      None
  }

  // ----- The label column that sorted_years_week sorts -----

  function WeekOfKey(k: CellKey): (nat, nat)
  {
    (k.year, k.week)
  }

  /** `source["year_week"].to_list()`: one label per row of the heatmap table, read in
      the order `cells` in which the table lists its cells. */
  function LabelColumn(table: map<CellKey, HeatCell>, cells: seq<CellKey>): (r: seq<string>)
    requires forall i :: 0 <= i < |cells| ==> cells[i] in table
    ensures |r| == |cells|
  {
    seq(|cells|, i requires 0 <= i < |cells| => table[cells[i]].yearWeek)
  }

  /** The label column holds, cell by cell, the printed label of the cell's year and week
      (a week appears once for each of its days with a run), so it meets what
      SortYearWeeks and SortIgnoresColumnOrder ask of their input. */
  lemma LabelColumnIsLabels(rows: seq<Activity>, cells: seq<CellKey>)
    requires HeatmapSource(rows).Some?
    requires forall i :: 0 <= i < |cells| ==> cells[i] in HeatmapSource(rows).value
    ensures LabelColumn(HeatmapSource(rows).value, cells) == Labels(Map(WeekOfKey, cells))
    ensures Parsable(LabelColumn(HeatmapSource(rows).value, cells))
    ensures AllCanonical(LabelColumn(HeatmapSource(rows).value, cells))
  {
  }

  /** sorted_years_week is the same list whatever order the group-by emits the cells in:
      two listings of the same cells give label columns that sort alike. */
  lemma SortedWeeksIgnoreCellOrder(rows: seq<Activity>, cells1: seq<CellKey>, cells2: seq<CellKey>)
    requires HeatmapSource(rows).Some?
    requires forall i :: 0 <= i < |cells1| ==> cells1[i] in HeatmapSource(rows).value
    requires forall i :: 0 <= i < |cells2| ==> cells2[i] in HeatmapSource(rows).value
    requires multiset(cells1) == multiset(cells2)
    ensures Parsable(LabelColumn(HeatmapSource(rows).value, cells1))
    ensures Parsable(LabelColumn(HeatmapSource(rows).value, cells2))
    ensures SortYearWeeks(LabelColumn(HeatmapSource(rows).value, cells1))
      == SortYearWeeks(LabelColumn(HeatmapSource(rows).value, cells2))
  {
    var table := HeatmapSource(rows).value;
    LabelColumnIsLabels(rows, cells1);
    LabelColumnIsLabels(rows, cells2);
    MapPermutation(WeekOfKey, cells1, cells2);
    MapPermutation(LabelOf, Map(WeekOfKey, cells1), Map(WeekOfKey, cells2));
    SortIgnoresColumnOrder(LabelColumn(table, cells1), LabelColumn(table, cells2));
  }
}
