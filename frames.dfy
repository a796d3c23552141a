/** Row-level operations on a data frame, with a frame modelled as the sequence
    of its rows in order. */
module Frames {

  /** DataFrame.filter: keep the rows satisfying `keep`, in their original order. */
  function Filter<T(!new)>(rows: seq<T>, keep: T -> bool): (r: seq<T>)
    ensures |r| <= |rows|
    ensures forall x :: multiset(r)[x] == if keep(x) then multiset(rows)[x] else 0
  {
    if rows == [] then []
    else
      var init, last := rows[..|rows| - 1], rows[|rows| - 1];
      assert rows == init + [last];
      Filter(init, keep) + (if keep(last) then [last] else [])
  }

  /** A row is in the filtered frame exactly when it is in the frame and kept. */
  lemma FilterMembership<T(!new)>(rows: seq<T>, keep: T -> bool, x: T)
    ensures x in Filter(rows, keep) <==> x in rows && keep(x)
  {
    assert x in Filter(rows, keep) <==> multiset(Filter(rows, keep))[x] > 0;
    assert x in rows <==> multiset(rows)[x] > 0;
  }

  /** `idx` lists, in strictly increasing order, positions of `rows` whose row is kept. */
  ghost predicate KeptPositions<T>(rows: seq<T>, keep: T -> bool, idx: seq<nat>)
  {
    && (forall i :: 0 <= i < |idx| ==> idx[i] < |rows| && keep(rows[idx[i]]))
    && (forall i, j :: 0 <= i < j < |idx| ==> idx[i] < idx[j])
  }

  /** The filtered frame is a subsequence of `rows`: its i-th row sits at the i-th of an
      increasing list of kept positions. With Filter's multiset clause (every kept row
      survives with its multiplicity), this says the filter drops rows and never reorders them. */
  lemma {:induction false} FilterIsOrderedSubsequence<T(!new)>(rows: seq<T>, keep: T -> bool)
    returns (idx: seq<nat>)
    ensures KeptPositions(rows, keep, idx)
    ensures |idx| == |Filter(rows, keep)|
    ensures forall i :: 0 <= i < |idx| ==> Filter(rows, keep)[i] == rows[idx[i]]
  {
    if rows == [] {
      idx := [];
    } else {
      var n := |rows| - 1;
      var init := rows[..n];
      assert rows == init + [rows[n]];
      var prev := FilterIsOrderedSubsequence(init, keep);
      idx := ExtendPositions(init, rows[n], keep, prev);
    }
  }

  /** A frame whose rows are all different stays so when filtered. */
  lemma FilterKeepsDistinct<T(!new)>(rows: seq<T>, keep: T -> bool)
    requires forall i, j :: 0 <= i < j < |rows| ==> rows[i] != rows[j]
    ensures var r := Filter(rows, keep);
      forall i, j :: 0 <= i < j < |r| ==> r[i] != r[j]
  {
  }

  /** One induction step of FilterIsOrderedSubsequence: appending a row extends the positions. */
  lemma ExtendPositions<T(!new)>(init: seq<T>, last: T, keep: T -> bool, prev: seq<nat>)
    returns (idx: seq<nat>)
    requires KeptPositions(init, keep, prev)
    requires |prev| == |Filter(init, keep)|
    requires forall i :: 0 <= i < |prev| ==> Filter(init, keep)[i] == init[prev[i]]
    ensures KeptPositions(init + [last], keep, idx)
    ensures |idx| == |Filter(init + [last], keep)|
    ensures forall i :: 0 <= i < |idx| ==> Filter(init + [last], keep)[i] == (init + [last])[idx[i]]
  {
    var rows := init + [last];
    var n := |init|;
    assert rows[..n] == init;
    var out := Filter(rows, keep);
    assert out == Filter(init, keep) + (if keep(last) then [last] else []);
    idx := if keep(last) then prev + [n] else prev;
    forall i | 0 <= i < |idx|
      ensures idx[i] < |rows| && keep(rows[idx[i]]) && out[i] == rows[idx[i]]
    {
      if i < |prev| {
        assert idx[i] == prev[i] && rows[prev[i]] == init[prev[i]];
      }
    }
    forall i, j | 0 <= i < j < |idx| ensures idx[i] < idx[j] {
      if j < |prev| {
        assert idx[i] == prev[i] && idx[j] == prev[j];
      } else {
        assert idx[i] == prev[i] < n;
      }
    }
  }

  /** Two filters in a row keep the same rows as one filter on the conjunction. */
  lemma {:induction false} FilterTwice<T(!new)>(rows: seq<T>, first: T -> bool, second: T -> bool, both: T -> bool)
    requires forall x :: both(x) == (first(x) && second(x))
    ensures Filter(Filter(rows, first), second) == Filter(rows, both)
  {
    if rows != [] {
      var init, last := rows[..|rows| - 1], rows[|rows| - 1];
      FilterTwice(init, first, second, both);
      var once := Filter(rows, first);
      var prefix := Filter(init, first);
      var tail := if first(last) then [last] else [];
      assert once == prefix + tail;
      if tail != [] {
        assert once[..|once| - 1] == prefix;
      }
      FilterAppend(prefix, tail, second);
    }
  }

  lemma {:induction false} FilterAppend<T(!new)>(a: seq<T>, b: seq<T>, keep: T -> bool)
    ensures Filter(a + b, keep) == Filter(a, keep) + Filter(b, keep)
  {
    if b != [] {
      var init := b[..|b| - 1];
      assert (a + b)[..|a + b| - 1] == a + init;
      assert b == init + [b[|b| - 1]];
      FilterAppend(a, init, keep);
    } else {
      assert a + b == a;
    }
  }

  /** Filters by two predicates that agree on every row keep the same rows. */
  lemma {:induction false} FilterAgree<T(!new)>(rows: seq<T>, p: T -> bool, q: T -> bool)
    requires forall i :: 0 <= i < |rows| ==> p(rows[i]) == q(rows[i])
    ensures Filter(rows, p) == Filter(rows, q)
  {
    if rows != [] {
      var init := rows[..|rows| - 1];
      assert forall i :: 0 <= i < |init| ==> init[i] == rows[i];
      FilterAgree(init, p, q);
    }
  }

  /** A column computed row by row: `f` of each row, in row order. */
  function Map<A, B>(f: A -> B, rows: seq<A>): seq<B>
  {
    seq(|rows|, i requires 0 <= i < |rows| => f(rows[i]))
  }

  lemma MapAppend<A, B>(f: A -> B, a: seq<A>, b: seq<A>)
    ensures Map(f, a + b) == Map(f, a) + Map(f, b)
  {
  }

  /** Rows in another order give the same column values in that other order. */
  lemma {:induction false} MapPermutation<A, B>(f: A -> B, a: seq<A>, b: seq<A>)
    requires multiset(a) == multiset(b)
    ensures multiset(Map(f, a)) == multiset(Map(f, b))
    decreases |a|
  {
    if a == [] {
      assert |multiset(b)| == 0;
    } else {
      var n := |a| - 1;
      var x := a[n];
      assert a == a[..n] + [x];
      assert x in multiset(b);
      var j :| 0 <= j < |b| && b[j] == x;
      var rest := b[..j] + b[j + 1..];
      assert b == b[..j] + [x] + b[j + 1..];
      assert multiset(rest) == multiset(a[..n]) by {
        assert multiset(b) == multiset(b[..j]) + multiset{x} + multiset(b[j + 1..]);
        assert multiset(rest) == multiset(b[..j]) + multiset(b[j + 1..]);
        assert multiset(a) == multiset(a[..n]) + multiset{x};
        forall y ensures multiset(rest)[y] == multiset(a[..n])[y] {
          assert multiset(a)[y] == multiset(b)[y];
        }
      }
      MapPermutation(f, a[..n], rest);
      MapAppend(f, a[..n], [x]);
      MapAppend(f, b[..j], [x]);
      MapAppend(f, b[..j] + [x], b[j + 1..]);
      MapAppend(f, b[..j], b[j + 1..]);
    }
  }
}
