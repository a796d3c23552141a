/** The synthetic "year - week" labels of the heatmap and `sorted_years_week`, which
    orders them latest week first by parsing each label back into integers (app.py). */
module WeekOrder {
  import opened Common
  import opened Text
  import opened Frames

  const Separator: string := " - "

  /** `pl.concat_str(year, week, separator=" - ")`. The sort key of sorted_years_week
      (ParseLabel below) recovers the year and the week from it. */
  function YearWeekLabel(year: nat, week: nat): (l: string)
    ensures ParseLabel(l) == Some((year, week))
  {
    PrintedLabelParses(year, week);
    Show(year) + Separator + Show(week)
  }

  lemma PrintedLabelParses(year: nat, week: nat)
    ensures ParseLabel(Show(year) + Separator + Show(week)) == Some((year, week))
  {
    var y, w := Show(year), Show(week);
    SplitAfter(y, Separator, w);
    SplitNone(w, Separator);
    ReadShow(year);
    ReadShow(week);
  }

  /** The sort key's parse: `yw.split(" - ")` and `int()` of each piece, defined for a
      label of two non-empty digit pieces. */
  function ParseLabel(yw: string): Option<(nat, nat)>
  {
    var parts := Split(yw, Separator);
    if |parts| == 2 && parts[0] != [] && parts[1] != [] && AllDigits(parts[0]) && AllDigits(parts[1])
    then Some((Read(parts[0]), Read(parts[1])))
    else None
  }

  /** Two labels of different weeks differ. */
  lemma LabelInjective(y1: nat, w1: nat, y2: nat, w2: nat)
    requires YearWeekLabel(y1, w1) == YearWeekLabel(y2, w2)
    ensures y1 == y2 && w1 == w2
  {
  }

  predicate Parsable(labels: seq<string>)
  {
    forall i :: 0 <= i < |labels| ==> ParseLabel(labels[i]).Some?
  }

  function Key(yw: string): (nat, nat)
    requires ParseLabel(yw).Some?
  {
    ParseLabel(yw).value
  }

  /** Python compares the key tuples (-year, -week): `a` may come before `b` when it is
      not an earlier week, comparing years first and weeks second, as numbers. */
  predicate NotEarlier(a: (nat, nat), b: (nat, nat))
  {
    a.0 > b.0 || (a.0 == b.0 && a.1 >= b.1)
  }

  predicate SortedLatestFirst(labels: seq<string>)
    requires Parsable(labels)
  {
    forall i, j :: 0 <= i < j < |labels| ==> NotEarlier(Key(labels[i]), Key(labels[j]))
  }

  /** Place `x` before the first label whose week is not later than its own. */
  function Insert(x: string, sorted: seq<string>): (r: seq<string>)
    requires ParseLabel(x).Some? && Parsable(sorted)
    ensures Parsable(r)
    ensures multiset(r) == multiset(sorted) + multiset{x}
  {
    if sorted == [] || NotEarlier(Key(x), Key(sorted[0])) then [x] + sorted
    else
      assert sorted == [sorted[0]] + sorted[1..];
      [sorted[0]] + Insert(x, sorted[1..])
  }

  /** Inserting into a latest-first list keeps it latest first. */
  lemma {:induction false} InsertKeepsOrder(x: string, sorted: seq<string>)
    requires ParseLabel(x).Some? && Parsable(sorted) && SortedLatestFirst(sorted)
    ensures SortedLatestFirst(Insert(x, sorted))
  {
    if sorted == [] || NotEarlier(Key(x), Key(sorted[0])) {
      PrependKeepsOrder(x, sorted);
    } else {
      var tail := sorted[1..];
      assert Parsable(tail) && SortedLatestFirst(tail) by {
        assert forall i :: 0 <= i < |tail| ==> tail[i] == sorted[i + 1];
      }
      InsertKeepsOrder(x, tail);
      forall j | 0 <= j < |Insert(x, tail)| ensures NotEarlier(Key(sorted[0]), Key(Insert(x, tail)[j])) {
        HeadBeforeInserted(x, sorted, j);
      }
      PrependKeepsOrder(sorted[0], Insert(x, tail));
    }
  }

  /** A label not earlier than the head of a latest-first list can go in front of it. */
  lemma PrependKeepsOrder(x: string, sorted: seq<string>)
    requires ParseLabel(x).Some? && Parsable(sorted) && SortedLatestFirst(sorted)
    requires sorted == [] || NotEarlier(Key(x), Key(sorted[0]))
    ensures Parsable([x] + sorted) && SortedLatestFirst([x] + sorted)
  {
    var r := [x] + sorted;
    forall i, j | 0 <= i < j < |r| ensures NotEarlier(Key(r[i]), Key(r[j])) {
      assert r[j] == sorted[j - 1];
      if i > 0 {
        assert r[i] == sorted[i - 1];
      } else if j > 1 {
        assert NotEarlier(Key(sorted[0]), Key(sorted[j - 1]));
      }
    }
  }

  /** When `x` goes behind the head, the head is not earlier than anything after it. */
  lemma HeadBeforeInserted(x: string, sorted: seq<string>, j: nat)
    requires ParseLabel(x).Some? && Parsable(sorted) && SortedLatestFirst(sorted)
    requires sorted != [] && !NotEarlier(Key(x), Key(sorted[0]))
    requires j < |Insert(x, sorted[1..])|
    ensures NotEarlier(Key(sorted[0]), Key(Insert(x, sorted[1..])[j]))
  {
    var tail := sorted[1..];
    var y := Insert(x, tail)[j];
    assert y in multiset(Insert(x, tail));
    if y != x {
      assert y in multiset(tail);
      var m :| 0 <= m < |tail| && tail[m] == y;
      assert sorted[m + 1] == y;
    }
  }

  /** sorted_years_week: Python's stable `sorted` by the key (-year, -week), written as an
      insertion sort. Latest week first, and a permutation of the labels. */
  function SortYearWeeks(labels: seq<string>): (r: seq<string>)
    requires Parsable(labels)
    ensures Parsable(r) && SortedLatestFirst(r)
    ensures multiset(r) == multiset(labels)
  {
    if labels == [] then []
    else
      assert labels == [labels[0]] + labels[1..];
      var rest := SortYearWeeks(labels[1..]);
      InsertKeepsOrder(labels[0], rest);
      Insert(labels[0], rest)
  }

  /** The label column of a list of (year, week) pairs, in the same order: every label
      parses, is printed as concat_str prints it, and has its pair as key. */
  function Labels(weeks: seq<(nat, nat)>): (r: seq<string>)
    ensures |r| == |weeks| && Parsable(r) && AllCanonical(r)
    ensures forall i :: 0 <= i < |r| ==> Key(r[i]) == weeks[i]
  {
    Map(LabelOf, weeks)
  }

  /** YearWeekLabel taking the (year, week) pair as one argument, so that it can be
      passed to Map. */
  function LabelOf(week: (nat, nat)): (l: string)
  {
    YearWeekLabel(week.0, week.1)
  }

  /** A label as concat_str prints it: parsable, and printed back unchanged. */
  predicate Canonical(yw: string)
  {
    ParseLabel(yw).Some? && LabelOf(ParseLabel(yw).value) == yw
  }

  predicate AllCanonical(labels: seq<string>)
  {
    forall i :: 0 <= i < |labels| ==> Canonical(labels[i])
  }

  /** A printed label is determined by its key. */
  lemma CanonicalByKey(x: string, y: string)
    requires Canonical(x) && Canonical(y) && Key(x) == Key(y)
    ensures x == y
  {
  }

  /** Two latest-first orderings of the same printed labels are the same list. */
  lemma {:induction false} SortedIsUnique(a: seq<string>, b: seq<string>)
    requires AllCanonical(a) && AllCanonical(b) && Parsable(a) && Parsable(b)
    requires SortedLatestFirst(a) && SortedLatestFirst(b)
    requires multiset(a) == multiset(b)
    ensures a == b
  {
    if a == [] {
      assert |multiset(b)| == 0;
    } else {
      assert a[0] in multiset(b);
      HeadsAgree(a, b);
      DropHead(a);
      DropHead(b);
      TailsStaySorted(a);
      TailsStaySorted(b);
      SortedIsUnique(a[1..], b[1..]);
    }
  }

  /** Both lists start with a latest label, and there is only one printed latest label. */
  lemma HeadsAgree(a: seq<string>, b: seq<string>)
    requires a != [] && b != []
    requires AllCanonical(a) && AllCanonical(b) && Parsable(a) && Parsable(b)
    requires SortedLatestFirst(a) && SortedLatestFirst(b)
    requires multiset(a) == multiset(b)
    ensures a[0] == b[0]
  {
    assert a[0] in multiset(b);
    var m :| 0 <= m < |b| && b[m] == a[0];
    assert b[0] in multiset(a);
    var n :| 0 <= n < |a| && a[n] == b[0];
    assert NotEarlier(Key(b[0]), Key(a[0])) by {
      if m > 0 {
        assert NotEarlier(Key(b[0]), Key(b[m]));
      }
    }
    assert NotEarlier(Key(a[0]), Key(b[0])) by {
      if n > 0 {
        assert NotEarlier(Key(a[0]), Key(a[n]));
      }
    }
    CanonicalByKey(a[0], b[0]);
  }

  lemma DropHead(a: seq<string>)
    requires a != []
    ensures multiset(a[1..]) == multiset(a) - multiset{a[0]}
  {
    assert a == [a[0]] + a[1..];
  }

  lemma TailsStaySorted(a: seq<string>)
    requires a != [] && AllCanonical(a) && Parsable(a) && SortedLatestFirst(a)
    ensures AllCanonical(a[1..]) && Parsable(a[1..]) && SortedLatestFirst(a[1..])
  {
    forall i | 0 <= i < |a| - 1 ensures a[1..][i] == a[i + 1] { }
  }

  /** The week order does not depend on the order of the label column: Polars'
      group_by returns the cells in no particular order, and every order of the same
      labels sorts to the same list. */
  lemma SortIgnoresColumnOrder(l1: seq<string>, l2: seq<string>)
    requires AllCanonical(l1) && AllCanonical(l2) && Parsable(l1) && Parsable(l2)
    requires multiset(l1) == multiset(l2)
    ensures SortYearWeeks(l1) == SortYearWeeks(l2)
  {
    var s1, s2 := SortYearWeeks(l1), SortYearWeeks(l2);
    forall i | 0 <= i < |s1| ensures Canonical(s1[i]) {
      assert s1[i] in multiset(l1);
    }
    forall i | 0 <= i < |s2| ensures Canonical(s2[i]) {
      assert s2[i] in multiset(l2);
    }
    SortedIsUnique(s1, s2);
  }

  /** The labels of week 3 and week 10 of 2025. */
  lemma ExampleLabels()
    ensures YearWeekLabel(2025, 3) == "2025 - 3" && YearWeekLabel(2025, 10) == "2025 - 10"
  {
    LabelOfWeekThree();
    LabelOfWeekTen();
  }

  lemma LabelOfWeekThree()
    ensures YearWeekLabel(2025, 3) == "2025 - 3"
  {
    PrintedYear();
    PrintedWeeks();
    assert YearWeekLabel(2025, 3) == Show(2025) + Separator + Show(3);
  }

  lemma LabelOfWeekTen()
    ensures YearWeekLabel(2025, 10) == "2025 - 10"
  {
    PrintedYear();
    PrintedWeeks();
    assert YearWeekLabel(2025, 10) == Show(2025) + Separator + Show(10);
  }

  lemma PrintedYear()
    ensures Show(2025) == "2025"
  {
    assert DigitChar(2) == '2' && DigitChar(0) == '0' && DigitChar(5) == '5';
    assert Show(20) == "20";
    assert Show(202) == "202";
  }

  lemma PrintedWeeks()
    ensures Show(3) == "3" && Show(10) == "10"
  {
    assert DigitChar(3) == '3' && DigitChar(1) == '1' && DigitChar(0) == '0';
  }

  /** Two labels, the second of a later week, swap places. */
  lemma SortTwo(x: string, y: string)
    requires ParseLabel(x).Some? && ParseLabel(y).Some? && !NotEarlier(Key(x), Key(y))
    ensures Parsable([x, y])
    ensures SortYearWeeks([x, y]) == [y, x]
  {
    assert [x, y][1..] == [y];
    assert SortYearWeeks([y]) == [y];
    assert Insert(x, [y]) == [y] + Insert(x, []);
  }

  lemma ExampleKeys()
    ensures LabelOf((2025, 3)) == "2025 - 3" && LabelOf((2025, 10)) == "2025 - 10"
    ensures Key(LabelOf((2025, 3))) == (2025, 3) && Key(LabelOf((2025, 10))) == (2025, 10)
  {
    ExampleLabels();
  }

  /** Week 10 of 2025 sorts before week 3, compared as numbers, not as text. */
  lemma WeekTenBeforeWeekThree()
    ensures Parsable(["2025 - 3", "2025 - 10"])
    ensures SortYearWeeks(["2025 - 3", "2025 - 10"]) == ["2025 - 10", "2025 - 3"]
  {
    ExampleKeys();
    SortTwo(LabelOf((2025, 3)), LabelOf((2025, 10)));
  }
}
