/**
  The top-seller recomputation: select the transactions in the trailing
  window (and category), count them per title, rank by count and keep the
  first `limit` rows.
 */
module Aggregator {
  import opened Sales
  import opened Ranking

  /** The least setting of the "Number of Top Sellers" control. */
  const MinLimit: nat := 1

  /** `r` is a ranking of the top sellers of the selection: at most `limit`
      rows with distinct titles, longest first, each carrying its title's
      true positive count. No unlisted title sold more than a listed one,
      and when fewer than `limit` rows are listed every title sold is among
      them. */
  ghost predicate IsTopSellers(r: seq<Entry>, txns: seq<Txn>, cat: Category, windowDays: int, limit: nat) {
    && |r| <= limit
    && Distinct(r)
    && Sorted(r)
    && (forall i :: 0 <= i < |r| ==> r[i].count == CountSold(txns, cat, windowDays, r[i].title) > 0)
    && (forall i, x :: 0 <= i < |r| && x !in TitleColumn(r) ==> CountSold(txns, cat, windowDays, x) <= r[i].count)
    && (|r| < limit ==> forall x :: CountSold(txns, cat, windowDays, x) > 0 ==> x in TitleColumn(r))
  }

  /** The ranked top sellers for one setting of the three controls. */
  function TopSellers(txns: seq<Txn>, cat: Category, windowDays: int, limit: nat): (r: seq<Entry>)
    requires ValidWindow(windowDays)
    ensures IsTopSellers(r, txns, cat, windowDays, limit)
  {
    var ts := TitlesOf(Filter(txns, cat, windowDays));
    var r := TopCounts(ts, limit);
    forall x
      ensures multiset(ts)[x] == CountSold(txns, cat, windowDays, x)
    {
      FilteredTitleCount(txns, cat, windowDays, x);
    }
    r
  }

  /** The window's edges: a sale on the reference date counts, a sale on
      the excluded start day does not. */
  lemma WindowEdges(t: Txn, cat: Category, windowDays: int, limit: nat)
    requires ValidWindow(windowDays) && limit >= MinLimit && Matches(t, cat)
    ensures t.day == DayMax ==> TopSellers([t], cat, windowDays, limit) == [Entry(t.title, 1)]
    ensures t.day == WindowStart(windowDays) ==> TopSellers([t], cat, windowDays, limit) == []
  {
    var r := TopSellers([t], cat, windowDays, limit);
    EdgeRows(t, cat, windowDays, limit, r);
  }

  /** `WindowEdges` for any table meeting the promises of `TopSellers`. */
  lemma EdgeRows(t: Txn, cat: Category, windowDays: int, limit: nat, r: seq<Entry>)
    requires ValidWindow(windowDays) && limit >= MinLimit && Matches(t, cat)
    requires |r| <= limit && Distinct(r)
    requires forall i :: 0 <= i < |r| ==> r[i].count == CountSold([t], cat, windowDays, r[i].title) > 0
    requires |r| < limit ==> forall x :: CountSold([t], cat, windowDays, x) > 0 ==> x in TitleColumn(r)
    ensures t.day == DayMax ==> r == [Entry(t.title, 1)]
    ensures t.day == WindowStart(windowDays) ==> r == []
  {
    forall x
      ensures CountSold([t], cat, windowDays, x) == if Selected(t, cat, windowDays) && t.title == x then 1 else 0
    {
      CountSoldSingle(t, cat, windowDays, x);
    }
    if t.day == DayMax {
      forall i | 0 <= i < |r|
        ensures r[i] == Entry(t.title, 1)
      {
        assert CountSold([t], cat, windowDays, r[i].title) > 0;
      }
      assert CountSold([t], cat, windowDays, t.title) == 1;
      OneRow(r, limit, Entry(t.title, 1));
    } else if t.day == WindowStart(windowDays) {
      assert r != [] ==> CountSold([t], cat, windowDays, r[0].title) > 0;
    }
  }

  /** A table of distinct titles made only of copies of `e`, with room for
      it, is exactly `e`. */
  lemma OneRow(r: seq<Entry>, limit: nat, e: Entry)
    requires Distinct(r) && |r| <= limit && limit >= 1
    requires forall i :: 0 <= i < |r| ==> r[i] == e
    requires |r| < limit ==> e.title in TitleColumn(r)
    ensures r == [e]
  {
    AtMostOneCopy(r, e);
  }

  /** Distinct titles leave room for at most one copy of a row. */
  lemma AtMostOneCopy(r: seq<Entry>, e: Entry)
    ensures Distinct(r) && (forall i :: 0 <= i < |r| ==> r[i] == e) ==> |r| <= 1
  {
    if |r| >= 2 && r[0] == e && r[1] == e {
      assert r[0].title == r[1].title;
    }
  }

  /** With room for at least one row, the result is empty exactly when no
      transaction falls in the window and the category. */
  lemma EmptyIffNothingSelected(txns: seq<Txn>, cat: Category, windowDays: int, limit: nat)
    requires ValidWindow(windowDays) && limit >= MinLimit
    ensures TopSellers(txns, cat, windowDays, limit) == []
        <==> forall i :: 0 <= i < |txns| ==> !Selected(txns[i], cat, windowDays)
  {
    EmptyIffNoneSold(txns, cat, windowDays, limit, TopSellers(txns, cat, windowDays, limit));
  }

  /** `EmptyIffNothingSelected` for any table meeting the promises of
      `TopSellers`. */
  lemma EmptyIffNoneSold(txns: seq<Txn>, cat: Category, windowDays: int, limit: nat, r: seq<Entry>)
    requires limit >= MinLimit
    requires forall i :: 0 <= i < |r| ==> r[i].count == CountSold(txns, cat, windowDays, r[i].title) > 0
    requires |r| < limit ==> forall x :: CountSold(txns, cat, windowDays, x) > 0 ==> x in TitleColumn(r)
    ensures r == [] <==> forall i :: 0 <= i < |txns| ==> !Selected(txns[i], cat, windowDays)
  {
    if i :| 0 <= i < |txns| && Selected(txns[i], cat, windowDays) {
      CountSoldPositive(txns, cat, windowDays, txns[i].title);
    }
    if r != [] {
      CountSoldPositive(txns, cat, windowDays, r[0].title);
    }
  }

  /** Widening the window keeps every ranked title's count or raises it, and
      when the wider result is not cut short every title of the narrower one
      is still there. */
  lemma WiderWindowKeepsTitles(txns: seq<Txn>, cat: Category, narrow: int, wide: int, limit: nat)
    requires ValidWindow(narrow) && ValidWindow(wide) && narrow <= wide
    ensures var rn := TopSellers(txns, cat, narrow, limit);
      forall i :: 0 <= i < |rn| ==> rn[i].count <= CountSold(txns, cat, wide, rn[i].title)
    ensures var rn, rw := TopSellers(txns, cat, narrow, limit), TopSellers(txns, cat, wide, limit);
      |rw| < limit ==> forall x :: x in TitleColumn(rn) ==> x in TitleColumn(rw)
  {
    var rn := TopSellers(txns, cat, narrow, limit);
    forall x
      ensures CountSold(txns, cat, narrow, x) <= CountSold(txns, cat, wide, x)
    {
      WiderWindowSellsMore(txns, cat, narrow, wide, x);
    }
    forall x | x in TitleColumn(rn)
      ensures CountSold(txns, cat, wide, x) > 0
    {
      var k :| 0 <= k < |rn| && TitleColumn(rn)[k] == x;
    }
  }

  /** When exactly two titles sold in the selection, with different counts,
      and there is room for both, the larger seller comes first and both
      carry their counts. */
  lemma TwoTitlesRankByCount(txns: seq<Txn>, cat: Category, windowDays: int, limit: nat,
                             lo: string, hi: string, loCount: nat, hiCount: nat)
    requires ValidWindow(windowDays) && limit >= 2
    requires 0 < loCount < hiCount
    requires CountSold(txns, cat, windowDays, lo) == loCount && CountSold(txns, cat, windowDays, hi) == hiCount
    requires forall x :: CountSold(txns, cat, windowDays, x) > 0 ==> x == lo || x == hi
    ensures TopSellers(txns, cat, windowDays, limit) == [Entry(hi, hiCount), Entry(lo, loCount)]
  {
    var r := TopSellers(txns, cat, windowDays, limit);
    forall i | 0 <= i < |r|
      ensures r[i] == Entry(lo, loCount) || r[i] == Entry(hi, hiCount)
    {
      assert CountSold(txns, cat, windowDays, r[i].title) > 0;
    }
    TwoRows(r, limit, Entry(lo, loCount), Entry(hi, hiCount));
  }

  /** A sorted table of distinct titles drawn from two rows, with room for
      both, holds both, the larger first. */
  lemma TwoRows(r: seq<Entry>, limit: nat, lo: Entry, hi: Entry)
    requires Distinct(r) && Sorted(r) && |r| <= limit && limit >= 2
    requires lo.title != hi.title && lo.count < hi.count
    requires forall i :: 0 <= i < |r| ==> r[i] == lo || r[i] == hi
    requires |r| < limit ==> lo.title in TitleColumn(r) && hi.title in TitleColumn(r)
    ensures r == [hi, lo]
  {
    if |r| > 2 {
      var t0, t1, t2 := r[0].title, r[1].title, r[2].title;
      assert false;
    }
    if |r| < 2 {
      var p :| 0 <= p < |r| && TitleColumn(r)[p] == lo.title;
      var q :| 0 <= q < |r| && TitleColumn(r)[q] == hi.title;
      assert false;
    }
    assert r[0].count >= r[1].count;
  }
}
