/** `_fetch_activities` (app.py): request pages 1, 2, 3, ... of the activity list and
    append each to the result until a page comes back empty. */
module Fetch {
  import opened Activities

  /** Every request asks for `per_page=200` rows; the pages below are taken as served. */
  const PerPage: nat := 200

  /** The remote activity list as the pages it serves: page p (counted from 1) is
      pages[p - 1], and every page past the last is empty. */
  function Page(pages: seq<seq<Activity>>, p: int): (r: seq<Activity>)
    ensures p < 1 || p > |pages| ==> r == []
  {
    if 1 <= p <= |pages| then pages[p - 1] else []
  }

  /** How many pages come before the first empty one (all of them when none is empty). */
  function NonEmptyRun(pages: seq<seq<Activity>>): (n: nat)
    ensures n <= |pages|
    ensures forall i :: 0 <= i < n ==> pages[i] != []
    ensures n < |pages| ==> pages[n] == []
  {
    if pages == [] || pages[0] == [] then 0 else 1 + NonEmptyRun(pages[1..])
  }

  /** The pages' rows one after another, in page order. */
  function Concat(pages: seq<seq<Activity>>): seq<Activity>
  {
    if pages == [] then [] else Concat(pages[..|pages| - 1]) + pages[|pages| - 1]
  }

  function TotalSize(pages: seq<seq<Activity>>): nat
  {
    if pages == [] then 0 else TotalSize(pages[..|pages| - 1]) + |pages[|pages| - 1]|
  }

  lemma {:induction false} ConcatLength(pages: seq<seq<Activity>>)
    ensures |Concat(pages)| == TotalSize(pages)
  {
    if pages != [] {
      ConcatLength(pages[..|pages| - 1]);
    }
  }

  /** The rows of page p sit in the concatenation right after those of the pages before it. */
  lemma {:induction false} ConcatPlacesPage(pages: seq<seq<Activity>>, p: nat, k: nat)
    requires p < |pages| && k < |pages[p]|
    ensures TotalSize(pages[..p]) + k < |Concat(pages)|
    ensures Concat(pages)[TotalSize(pages[..p]) + k] == pages[p][k]
  {
    var n := |pages| - 1;
    var init := pages[..n];
    ConcatLength(init);
    if p < n {
      assert init[..p] == pages[..p];
      ConcatPlacesPage(init, p, k);
    } else {
      assert pages[..p] == init;
    }
  }

  /** `_fetch_activities`. `requested` is the log of the requests made, in order, each as
      its (page, per_page) arguments. */
  method FetchActivities(pages: seq<seq<Activity>>) returns (activities: seq<Activity>, ghost requested: seq<(int, nat)>)
    ensures activities == Concat(pages[..NonEmptyRun(pages)])
    ensures |activities| == TotalSize(pages[..NonEmptyRun(pages)])
    ensures requested == seq(NonEmptyRun(pages) + 1, i => (i + 1, PerPage))
    ensures Page(pages, requested[|requested| - 1].0) == []
  {
    var page := 1;
    activities := [];
    requested := [];
    while true
      invariant 1 <= page <= NonEmptyRun(pages) + 1
      invariant activities == Concat(pages[..page - 1])
      invariant requested == seq(page - 1, i => (i + 1, PerPage))
      decreases NonEmptyRun(pages) + 1 - page
    {
      var pageActivities := Page(pages, page);
      requested := requested + [(page, PerPage)];
      if pageActivities == [] {
        break;
      }
      page := page + 1;
      assert pages[..page - 1][..page - 2] == pages[..page - 2];
      activities := activities + pageActivities;
    }
    ConcatLength(pages[..NonEmptyRun(pages)]);
  }
}
