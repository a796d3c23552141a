/** `displayed_activities` (app.py): with no heatmap cell selected, every filtered
    activity; otherwise the filtered activities joined with the selected cells' exploded
    id lists. */
module Selection {
  import opened Frames
  import opened Activities
  import opened Heatmap

  /** `explode("id")` on the selected heatmap rows, keeping only the id column: the cells'
      id lists one after another. */
  function ExplodeIds(selected: seq<HeatCell>): (ids: seq<int>)
    ensures forall i :: 0 <= i < |selected| ==> multiset(selected[i].ids) <= multiset(ids)
  {
    if selected == [] then []
    else
      var init := selected[..|selected| - 1];
      assert forall i :: 0 <= i < |init| ==> init[i] == selected[i];
      ExplodeIds(init) + selected[|selected| - 1].ids
  }

  /** An id is exploded exactly when some selected cell lists it. */
  lemma {:induction false} ExplodedIdsAreSelected(selected: seq<HeatCell>, id: int)
    ensures id in ExplodeIds(selected) <==> exists c :: c in selected && id in c.ids
  {
    if selected != [] {
      var init, last := selected[..|selected| - 1], selected[|selected| - 1];
      ExplodedIdsAreSelected(init, id);
      assert selected == init + [last];
      if id in ExplodeIds(selected) && id !in last.ids {
        var c :| c in init && id in c.ids;
        assert c in selected;
      }
      if exists c :: c in selected && id in c.ids {
        var c :| c in selected && id in c.ids;
        if c != last {
          assert c in init;
        }
      }
    }
  }

  /** The copies of `a` an inner join on id makes: one per exploded row carrying its id. */
  function Matches(a: Activity, ids: seq<int>): (r: seq<Activity>)
    ensures forall i :: 0 <= i < |r| ==> r[i] == a
    ensures r != [] ==> a.id in ids
  {
    if ids == [] then []
    else
      var init, last := ids[..|ids| - 1], ids[|ids| - 1];
      assert ids == init + [last];
      Matches(a, init) + (if last == a.id then [a] else [])
  }

  /** `filtered_df.join(exploded, on="id")`, taken with the rows of `rows` in their order. */
  function JoinOnId(rows: seq<Activity>, ids: seq<int>): (r: seq<Activity>)
    ensures forall i :: 0 <= i < |r| ==> r[i] in rows && r[i].id in ids
  {
    if rows == [] then []
    else
      var init := rows[..|rows| - 1];
      assert forall x :: x in init ==> x in rows;
      JoinOnId(init, ids) + Matches(rows[|rows| - 1], ids)
  }

  lemma {:induction false} MatchesCount(a: Activity, ids: seq<int>, x: Activity)
    ensures multiset(Matches(a, ids))[x] == if x == a then multiset(ids)[a.id] else 0
  {
    if ids != [] {
      var init := ids[..|ids| - 1];
      assert ids == init + [ids[|ids| - 1]];
      MatchesCount(a, init, x);
    }
  }

  /** The join holds each row as many times as it is in `rows`, times the number of
      exploded ids equal to its own. */
  lemma {:induction false} JoinCount(rows: seq<Activity>, ids: seq<int>, x: Activity)
    ensures multiset(JoinOnId(rows, ids))[x] == multiset(rows)[x] * multiset(ids)[x.id]
  {
    if rows != [] {
      var init, last := rows[..|rows| - 1], rows[|rows| - 1];
      JoinCount(init, ids, x);
      MatchesCount(last, ids, x);
      JoinSnoc(rows, ids, x);
      var a, d, b := multiset(init)[x], if x == last then 1 else 0, multiset(ids)[x.id];
      CountSnoc(rows, x);
      CountStep(a, d, b);
      assert multiset(JoinOnId(rows, ids))[x] == (a + d) * b;
    }
  }

  lemma CountSnoc(rows: seq<Activity>, x: Activity)
    requires rows != []
    ensures multiset(rows)[x]
      == multiset(rows[..|rows| - 1])[x] + (if x == rows[|rows| - 1] then 1 else 0)
  {
    assert rows == rows[..|rows| - 1] + [rows[|rows| - 1]];
  }

  /** The arithmetic of one step of JoinCount: `b` copies per row, over `a` rows and `d` more. */
  lemma CountStep(a: int, d: int, b: int)
    ensures a * b + d * b == (a + d) * b
    ensures d == 0 ==> d * b == 0
    ensures d == 1 ==> d * b == b
  {
  }

  /** One induction step of JoinCount: the join of a non-empty frame counts `x` in the join
      of all rows but the last, then in the last row's matches. */
  lemma JoinSnoc(rows: seq<Activity>, ids: seq<int>, x: Activity)
    requires rows != []
    ensures multiset(JoinOnId(rows, ids))[x]
      == multiset(JoinOnId(rows[..|rows| - 1], ids))[x] + multiset(Matches(rows[|rows| - 1], ids))[x]
  {
    assert JoinOnId(rows, ids) == JoinOnId(rows[..|rows| - 1], ids) + Matches(rows[|rows| - 1], ids);
  }

  lemma Distribute(a: int, b: int, c: int)
    ensures (a + b) * c == a * c + b * c
  {
  }

  function Displayed(filtered: seq<Activity>, selected: seq<HeatCell>): (r: seq<Activity>)
    ensures selected == [] ==> r == filtered
  {
    if selected == [] then filtered else JoinOnId(filtered, ExplodeIds(selected))
  }

  /** With a selection, an activity is displayed exactly when it is a filtered activity
      and one of the selected cells lists its id. */
  lemma DisplayedRows(filtered: seq<Activity>, selected: seq<HeatCell>, a: Activity)
    requires selected != []
    ensures a in Displayed(filtered, selected) <==>
      a in filtered && exists c :: c in selected && a.id in c.ids
  {
    var ids := ExplodeIds(selected);
    JoinCount(filtered, ids, a);
    ExplodedIdsAreSelected(selected, a.id);
    var r := Displayed(filtered, selected);
    var m, c := multiset(filtered)[a], multiset(ids)[a.id];
    ProductPositive(m, c);
    assert a in r <==> multiset(r)[a] > 0;
    assert a in filtered <==> m > 0;
    assert a.id in ids <==> c > 0;
  }

  lemma ProductPositive(m: nat, c: nat)
    ensures m * c > 0 <==> m > 0 && c > 0
  {
    if m > 0 && c > 0 {
      assert m * c >= c by {
        Distribute(m - 1, 1, c);
      }
    }
  }

  predicate NoRepeats(ids: seq<int>)
  {
    forall i, j :: 0 <= i < j < |ids| ==> ids[i] != ids[j]
  }

  function IdIn(ids: seq<int>): Activity -> bool
  {
    (a: Activity) => a.id in ids
  }

  lemma {:induction false} MatchesOnce(a: Activity, ids: seq<int>)
    requires NoRepeats(ids)
    ensures Matches(a, ids) == if a.id in ids then [a] else []
  {
    if ids != [] {
      var init, last := ids[..|ids| - 1], ids[|ids| - 1];
      assert ids == init + [last];
      assert NoRepeats(init);
      MatchesOnce(a, init);
      if last == a.id {
        assert a.id !in init;
      }
    }
  }

  /** When no id is exploded twice, the join is an order-preserving filter of the
      filtered activities: it keeps each row whose id is selected, once, in place. */
  lemma {:induction false} JoinIsFilter(rows: seq<Activity>, ids: seq<int>)
    requires NoRepeats(ids)
    ensures JoinOnId(rows, ids) == Filter(rows, IdIn(ids))
  {
    if rows != [] {
      var init, last := rows[..|rows| - 1], rows[|rows| - 1];
      JoinIsFilter(init, ids);
      MatchesOnce(last, ids);
    }
  }

  // ----- Selections the heatmap can make -----

  /** `heatmap_selection.value`: the rows of the heatmap table for the clicked cells.
      marimo builds it by filtering the rows of `source`, so `keys` lists each cell at
      most once (FilterKeepsDistinct). */
  function Selected(table: map<CellKey, HeatCell>, keys: seq<CellKey>): (r: seq<HeatCell>)
    requires forall i :: 0 <= i < |keys| ==> keys[i] in table
    ensures |r| == |keys| && forall i :: 0 <= i < |r| ==> r[i] in table.Values
  {
    seq(|keys|, i requires 0 <= i < |keys| => table[keys[i]])
  }

  /** `table` shows the group cells of `rows`: every key it has is a group cell, with that
      cell's id list. */
  ghost predicate ShowsGroup(rows: seq<Activity>, table: map<CellKey, HeatCell>)
  {
    forall k :: k in table ==> k in Group(rows) && table[k].ids == Group(rows)[k].ids
  }

  /** The heatmap's table shows the group cells. */
  lemma HeatmapShowsGroup(rows: seq<Activity>)
    requires HeatmapSource(rows).Some?
    ensures ShowsGroup(rows, HeatmapSource(rows).value)
  {
  }

  /** An exploded id comes from a selected cell at some position. */
  lemma ExplodedIdAt(selected: seq<HeatCell>, id: int) returns (m: nat)
    requires id in ExplodeIds(selected)
    ensures m < |selected| && id in selected[m].ids
  {
    ExplodedIdsAreSelected(selected, id);
    var c :| c in selected && id in c.ids;
    m :| m < |selected| && selected[m] == c;
  }

  /** With unique activity ids, no id is listed twice in a cell. */
  lemma CellIdsDistinct(rows: seq<Activity>, k: CellKey)
    requires UniqueIds(rows) && k in Group(rows)
    ensures NoRepeats(Group(rows)[k].ids)
  {
    GroupIsSummary(rows);
    var ms := Members(rows, k);
    var idx := FilterIsOrderedSubsequence(rows, InCell(k));
    var ids := Group(rows)[k].ids;
    forall i, j | 0 <= i < j < |ids| ensures ids[i] != ids[j] {
      assert ids[i] == rows[idx[i]].id && ids[j] == rows[idx[j]].id;
    }
  }

  /** With unique activity ids, two different cells list no id in common. */
  lemma CellIdsDisjoint(rows: seq<Activity>, k1: CellKey, k2: CellKey, id: int)
    requires UniqueIds(rows) && k1 in Group(rows) && k2 in Group(rows) && k1 != k2
    requires id in Group(rows)[k1].ids
    ensures id !in Group(rows)[k2].ids
  {
    CellContents(rows, k1);
    var ms := Members(rows, k1);
    var j :| 0 <= j < |ms| && IdsOf(ms)[j] == id;
    assert ms[j] in ms;
    var i :| 0 <= i < |rows| && rows[i] == ms[j];
    IdInNoOtherCell(rows, i, k2);
  }

  lemma NoRepeatsAppend(a: seq<int>, b: seq<int>)
    requires NoRepeats(a) && NoRepeats(b)
    requires forall i :: 0 <= i < |a| ==> a[i] !in b
    ensures NoRepeats(a + b)
  {
  }

  /** Clicking distinct cells of a table that shows the group cells of activities with
      unique ids explodes no id twice, so JoinIsFilter applies to every such selection. */
  lemma {:induction false} ExplodedIdsDistinct(rows: seq<Activity>, table: map<CellKey, HeatCell>, keys: seq<CellKey>)
    requires UniqueIds(rows) && ShowsGroup(rows, table)
    requires forall i :: 0 <= i < |keys| ==> keys[i] in table
    requires forall i, j :: 0 <= i < j < |keys| ==> keys[i] != keys[j]
    ensures NoRepeats(ExplodeIds(Selected(table, keys)))
  {
    if keys != [] {
      var n := |keys| - 1;
      var init, last := keys[..n], keys[n];
      ExplodedIdsDistinct(rows, table, init);
      var before := ExplodeIds(Selected(table, init));
      ExplodeLastCell(table, keys);
      CellIdsDistinct(rows, last);
      forall i | 0 <= i < |before| ensures before[i] !in table[last].ids {
        EarlierCellsDisjoint(rows, table, init, last, before[i]);
      }
      NoRepeatsAppend(before, table[last].ids);
    }
  }

  /** Exploding the clicked cells gives the ids of all but the last, then the last cell's. */
  lemma ExplodeLastCell(table: map<CellKey, HeatCell>, keys: seq<CellKey>)
    requires keys != [] && forall i :: 0 <= i < |keys| ==> keys[i] in table
    ensures ExplodeIds(Selected(table, keys))
      == ExplodeIds(Selected(table, keys[..|keys| - 1])) + table[keys[|keys| - 1]].ids
  {
    var sel := Selected(table, keys);
    assert sel[..|keys| - 1] == Selected(table, keys[..|keys| - 1]);
  }

  /** An id exploded from cells other than `last` is not in the id list of `last`. */
  lemma EarlierCellsDisjoint(rows: seq<Activity>, table: map<CellKey, HeatCell>, keys: seq<CellKey>,
                             last: CellKey, id: int)
    requires UniqueIds(rows) && ShowsGroup(rows, table)
    requires forall i :: 0 <= i < |keys| ==> keys[i] in table
    requires last in table && last !in keys
    requires id in ExplodeIds(Selected(table, keys))
    ensures id !in table[last].ids
  {
    var m := ExplodedIdAt(Selected(table, keys), id);
    CellIdsDisjoint(rows, keys[m], last, id);
  }

  function InCells(keys: seq<CellKey>): Activity -> bool
  {
    (a: Activity) => KeyOf(a) in keys
  }

  /** displayed_activities for a click on distinct cells of the heatmap drawn from
      `filtered`: everything when nothing is clicked, otherwise exactly the filtered
      activities whose cell was clicked, each once and in table order. */
  lemma DisplayedClickedCells(filtered: seq<Activity>, keys: seq<CellKey>)
    requires UniqueIds(filtered) && HeatmapSource(filtered).Some?
    requires forall i :: 0 <= i < |keys| ==> keys[i] in HeatmapSource(filtered).value
    requires forall i, j :: 0 <= i < j < |keys| ==> keys[i] != keys[j]
    ensures var sel := Selected(HeatmapSource(filtered).value, keys);
      Displayed(filtered, sel) == if keys == [] then filtered else Filter(filtered, InCells(keys))
  {
    var table := HeatmapSource(filtered).value;
    HeatmapShowsGroup(filtered);
    DisplayedClickedTable(filtered, table, keys);
  }

  lemma DisplayedClickedTable(filtered: seq<Activity>, table: map<CellKey, HeatCell>, keys: seq<CellKey>)
    requires UniqueIds(filtered) && ShowsGroup(filtered, table)
    requires forall i :: 0 <= i < |keys| ==> keys[i] in table
    requires forall i, j :: 0 <= i < j < |keys| ==> keys[i] != keys[j]
    ensures Displayed(filtered, Selected(table, keys)) == if keys == [] then filtered else Filter(filtered, InCells(keys))
  {
    var ids := ExplodeIds(Selected(table, keys));
    if keys != [] {
      ExplodedIdsDistinct(filtered, table, keys);
      JoinIsFilter(filtered, ids);
      forall i | 0 <= i < |filtered| ensures IdIn(ids)(filtered[i]) == InCells(keys)(filtered[i]) {
        IdSelectedIffCellClicked(filtered, table, keys, i);
      }
      FilterAgree(filtered, IdIn(ids), InCells(keys));
    }
  }

  /** An activity's id is exploded exactly when its own cell was clicked. */
  lemma IdSelectedIffCellClicked(rows: seq<Activity>, table: map<CellKey, HeatCell>, keys: seq<CellKey>, i: nat)
    requires UniqueIds(rows) && ShowsGroup(rows, table) && i < |rows|
    requires forall j :: 0 <= j < |keys| ==> keys[j] in table
    ensures rows[i].id in ExplodeIds(Selected(table, keys)) <==> KeyOf(rows[i]) in keys
  {
    var sel := Selected(table, keys);
    IdInOwnCell(rows, i);
    if rows[i].id in ExplodeIds(sel) {
      var m := ExplodedIdAt(sel, rows[i].id);
      if keys[m] != KeyOf(rows[i]) {
        IdInNoOtherCell(rows, i, keys[m]);
      }
    }
    if KeyOf(rows[i]) in keys {
      var m :| 0 <= m < |keys| && keys[m] == KeyOf(rows[i]);
      assert sel[m] in sel;
      ExplodedIdsAreSelected(sel, rows[i].id);
    }
  }
}
