/**
  Counting titles and ranking them by count, the work `value_counts` does:
  a tally of distinct titles in first-seen order, then a stable sort by
  count, largest first.
 */
module Ranking {

  /** One row of the ranked table: a full title and how often it sold. */
  datatype Entry = Entry(title: string, count: nat)

  /** The title column of a ranked table. */
  function TitleColumn(es: seq<Entry>): (r: seq<string>)
    ensures |r| == |es|
    ensures forall i :: 0 <= i < |es| ==> r[i] == es[i].title
  {
    seq(|es|, i requires 0 <= i < |es| => es[i].title)
  }

  /** No title occupies two rows. */
  predicate Distinct(es: seq<Entry>) {
    forall i, j :: 0 <= i < |es| && 0 <= j < |es| && i != j ==> es[i].title != es[j].title
  }

  /** Counts never increase down the table. */
  predicate Sorted(es: seq<Entry>) {
    forall i, j :: 0 <= i < j < |es| ==> es[i].count >= es[j].count
  }

  /** The count recorded for `title`, or 0 when it has no row. */
  function Lookup(es: seq<Entry>, title: string): nat {
    if es == [] then 0
    else if es[0].title == title then es[0].count
    else Lookup(es[1..], title)
  }

  lemma {:induction false} LookupDistinct(es: seq<Entry>, i: int)
    requires Distinct(es) && 0 <= i < |es|
    ensures Lookup(es, es[i].title) == es[i].count
  {
    if i > 0 {
      assert es[1..][i - 1] == es[i];
      LookupDistinct(es[1..], i - 1);
    }
  }

  /** Records one more sale of `title`: its row's count goes up by one, or a
      new row with count 1 is appended after all existing rows. */
  function Bump(es: seq<Entry>, title: string): (r: seq<Entry>)
    ensures forall y :: Lookup(r, y) == Lookup(es, y) + (if y == title then 1 else 0)
    ensures forall y :: y in TitleColumn(r) <==> y in TitleColumn(es) || y == title
    ensures Distinct(es) ==> Distinct(r)
  {
    if es == [] then [Entry(title, 1)]
    else if es[0].title == title then
      var r := [Entry(title, es[0].count + 1)] + es[1..];
      BumpHere(es, title, r);
      r
    else
      var rest := Bump(es[1..], title);
      BumpLater(es, title, rest);
      [es[0]] + rest
  }

  /** Bumping the title of the first row. */
  lemma BumpHere(es: seq<Entry>, title: string, r: seq<Entry>)
    requires es != [] && es[0].title == title
    requires r == [Entry(title, es[0].count + 1)] + es[1..]
    ensures forall y :: Lookup(r, y) == Lookup(es, y) + (if y == title then 1 else 0)
    ensures forall y :: y in TitleColumn(r) <==> y in TitleColumn(es) || y == title
    ensures Distinct(es) ==> Distinct(r)
  {
    assert es == [es[0]] + es[1..];
    assert r[1..] == es[1..];
    TitleColumnCons(es[0], es[1..]);
    TitleColumnCons(r[0], es[1..]);
    if Distinct(es) {
      DistinctTail(es);
      DistinctCons(r[0], es[1..]);
    }
  }

  /** Bumping a title that is not in the first row. */
  lemma BumpLater(es: seq<Entry>, title: string, rest: seq<Entry>)
    requires es != [] && es[0].title != title
    requires forall y :: Lookup(rest, y) == Lookup(es[1..], y) + (if y == title then 1 else 0)
    requires forall y :: y in TitleColumn(rest) <==> y in TitleColumn(es[1..]) || y == title
    requires Distinct(es[1..]) ==> Distinct(rest)
    ensures forall y :: Lookup([es[0]] + rest, y) == Lookup(es, y) + (if y == title then 1 else 0)
    ensures forall y :: y in TitleColumn([es[0]] + rest) <==> y in TitleColumn(es) || y == title
    ensures Distinct(es) ==> Distinct([es[0]] + rest)
  {
    assert es == [es[0]] + es[1..];
    forall y
      ensures Lookup([es[0]] + rest, y) == Lookup(es, y) + (if y == title then 1 else 0)
    {
      LookupCons(es[0], rest, y);
      LookupCons(es[0], es[1..], y);
    }
    TitleColumnCons(es[0], es[1..]);
    TitleColumnCons(es[0], rest);
    if Distinct(es) {
      DistinctTail(es);
      DistinctCons(es[0], rest);
    }
  }

  lemma LookupCons(x: Entry, tail: seq<Entry>, title: string)
    ensures Lookup([x] + tail, title) == if x.title == title then x.count else Lookup(tail, title)
  {
    assert ([x] + tail)[1..] == tail;
  }

  /** The distinct titles of `ts` in first-seen order, each with its
      number of occurrences. */
  function Tally(ts: seq<string>): (r: seq<Entry>)
    ensures Distinct(r)
    ensures forall y :: y in ts <==> y in TitleColumn(r)
    ensures forall y :: Lookup(r, y) == multiset(ts)[y]
    ensures forall i :: 0 <= i < |r| ==> r[i].count == multiset(ts)[r[i].title] > 0
  {
    if ts == [] then []
    else
      var init, last := ts[..|ts| - 1], ts[|ts| - 1];
      assert ts == init + [last];
      var r := Bump(Tally(init), last);
      TallyStep(init, last, Tally(init), r);
      r
  }

  /** Recording the last title on the tally of the others gives the tally
      of the whole sequence. */
  lemma TallyStep(init: seq<string>, last: string, prev: seq<Entry>, r: seq<Entry>)
    requires Distinct(prev)
    requires forall y :: y in init <==> y in TitleColumn(prev)
    requires forall y :: Lookup(prev, y) == multiset(init)[y]
    requires r == Bump(prev, last)
    ensures Distinct(r)
    ensures forall y :: y in init + [last] <==> y in TitleColumn(r)
    ensures forall y :: Lookup(r, y) == multiset(init + [last])[y]
    ensures forall i :: 0 <= i < |r| ==> r[i].count == multiset(init + [last])[r[i].title] > 0
  {
    var ts := init + [last];
    assert forall y :: y in ts <==> y in init || y == last;
    forall i | 0 <= i < |r|
      ensures r[i].count == multiset(ts)[r[i].title] > 0
    {
      LookupDistinct(r, i);
      assert r[i].title == TitleColumn(r)[i];
      assert r[i].title in ts;
    }
  }

  /** Places `e` after every row that outsold it and before the rest,
      including the rows it ties with. `Sort` inserts from the back, so it
      keeps the input order among equal counts. */
  function Insert(e: Entry, s: seq<Entry>): (r: seq<Entry>)
    requires Sorted(s)
    ensures Sorted(r)
    ensures multiset(r) == multiset(s) + multiset{e}
    ensures forall y :: y in TitleColumn(r) <==> y in TitleColumn(s) || y == e.title
    ensures Distinct(s) && e.title !in TitleColumn(s) ==> Distinct(r)
  {
    if s == [] || s[0].count <= e.count then
      assert TitleColumn([e] + s) == [e.title] + TitleColumn(s);
      DistinctCons(e, s);
      [e] + s
    else
      var rest := Insert(e, s[1..]);
      InsertStep(e, s, rest);
      [s[0]] + rest
  }

  /** Putting back the row that outsold `e` in front of the recursive
      insertion keeps all four promises of `Insert`. */
  lemma InsertStep(e: Entry, s: seq<Entry>, rest: seq<Entry>)
    requires Sorted(s) && s != [] && s[0].count > e.count
    requires Sorted(rest) && multiset(rest) == multiset(s[1..]) + multiset{e}
    requires forall y :: y in TitleColumn(rest) <==> y in TitleColumn(s[1..]) || y == e.title
    requires Distinct(s[1..]) && e.title !in TitleColumn(s[1..]) ==> Distinct(rest)
    ensures Sorted([s[0]] + rest)
    ensures multiset([s[0]] + rest) == multiset(s) + multiset{e}
    ensures forall y :: y in TitleColumn([s[0]] + rest) <==> y in TitleColumn(s) || y == e.title
    ensures Distinct(s) && e.title !in TitleColumn(s) ==> Distinct([s[0]] + rest)
  {
    assert s == [s[0]] + s[1..];
    ConsMultiset(s[0], s[1..], rest, e);
    TitleColumnCons(s[0], s[1..]);
    TitleColumnCons(s[0], rest);
    InsertKeepsHead(e, s, rest);
    if Distinct(s) && e.title !in TitleColumn(s) {
      DistinctTail(s);
      DistinctCons(s[0], rest);
    }
  }

  lemma ConsMultiset(x: Entry, tail: seq<Entry>, rest: seq<Entry>, e: Entry)
    requires multiset(rest) == multiset(tail) + multiset{e}
    ensures multiset([x] + rest) == multiset([x] + tail) + multiset{e}
  {
    assert multiset([x] + rest) == multiset{x} + multiset(rest);
    assert multiset([x] + tail) == multiset{x} + multiset(tail);
  }

  lemma TitleColumnCons(x: Entry, rest: seq<Entry>)
    ensures TitleColumn([x] + rest) == [x.title] + TitleColumn(rest)
  {
  }

  /** Dropping the first row keeps titles distinct, and the dropped title
      does not occur in the rest. */
  lemma DistinctTail(s: seq<Entry>)
    ensures Distinct(s) && s != [] ==> Distinct(s[1..]) && s[0].title !in TitleColumn(s[1..])
  {
    if Distinct(s) && s != [] {
      forall i, j | 0 <= i < |s[1..]| && 0 <= j < |s[1..]| && i != j
        ensures s[1..][i].title != s[1..][j].title
      {
        assert s[1..][i] == s[i + 1] && s[1..][j] == s[j + 1];
      }
    }
  }

  lemma DistinctCons(x: Entry, rest: seq<Entry>)
    ensures Distinct(rest) && x.title !in TitleColumn(rest) ==> Distinct([x] + rest)
  {
    if Distinct(rest) && x.title !in TitleColumn(rest) {
      forall i, j | 0 <= i < |[x] + rest| && 0 <= j < |[x] + rest| && i != j
        ensures ([x] + rest)[i].title != ([x] + rest)[j].title
      {
        if i == 0 {
          assert ([x] + rest)[j].title == TitleColumn(rest)[j - 1];
        } else if j == 0 {
          assert ([x] + rest)[i].title == TitleColumn(rest)[i - 1];
        }
      }
    }
  }

  /** The row that outsold `e` stays ahead of everything `e` is inserted into. */
  lemma InsertKeepsHead(e: Entry, s: seq<Entry>, rest: seq<Entry>)
    requires Sorted(s) && s != [] && s[0].count > e.count
    requires Sorted(rest) && multiset(rest) == multiset(s[1..]) + multiset{e}
    ensures Sorted([s[0]] + rest)
  {
    forall k | 0 <= k < |rest|
      ensures rest[k].count <= s[0].count
    {
      assert rest[k] in multiset(rest);
      if rest[k] != e {
        assert rest[k] in s[1..];
      }
    }
  }

  /** A stable insertion sort by count, largest first. */
  function Sort(es: seq<Entry>): (r: seq<Entry>)
    ensures Sorted(r)
    ensures multiset(r) == multiset(es)
    ensures forall y :: y in TitleColumn(r) <==> y in TitleColumn(es)
    ensures Distinct(es) ==> Distinct(r)
  {
    if es == [] then []
    else
      var rest := Sort(es[1..]);
      assert es == [es[0]] + es[1..];
      TitleColumnCons(es[0], es[1..]);
      assert multiset(es) == multiset(es[1..]) + multiset{es[0]};
      DistinctTail(es);
      Insert(es[0], rest)
  }

  /** What `value_counts` returns: every distinct title of `ts` once, with
      its number of occurrences, largest count first. Ties keep the order in
      which the titles first occur. */
  function ValueCounts(ts: seq<string>): (r: seq<Entry>)
    ensures Distinct(r)
    ensures Sorted(r)
    ensures forall y :: y in ts <==> y in TitleColumn(r)
    ensures forall i :: 0 <= i < |r| ==> r[i].count == multiset(ts)[r[i].title] > 0
  {
    var tally := Tally(ts);
    var r := Sort(tally);
    forall i | 0 <= i < |r|
      ensures r[i].count == multiset(ts)[r[i].title] > 0
    {
      assert r[i] in multiset(tally);
      var j :| 0 <= j < |tally| && tally[j] == r[i];
    }
    r
  }

  /** `value_counts()[0:limit]`: the first `limit` rows of the ranking. No
      title left out occurs more often than a title kept, and when fewer
      than `limit` rows come back no title was left out. */
  function TopCounts(ts: seq<string>, limit: nat): (r: seq<Entry>)
    ensures |r| <= limit
    ensures Distinct(r)
    ensures Sorted(r)
    ensures forall i :: 0 <= i < |r| ==> r[i].count == multiset(ts)[r[i].title] > 0
    ensures forall i, x :: 0 <= i < |r| && x !in TitleColumn(r) ==> multiset(ts)[x] <= r[i].count
    ensures |r| < limit ==> forall x :: x in ts ==> x in TitleColumn(r)
  {
    var ranked := ValueCounts(ts);
    var r := if limit < |ranked| then ranked[..limit] else ranked;
    PrefixOfRanking(ts, ranked, r);
    r
  }

  lemma PrefixOfRanking(ts: seq<string>, ranked: seq<Entry>, r: seq<Entry>)
    requires Distinct(ranked) && Sorted(ranked)
    requires forall y :: y in ts <==> y in TitleColumn(ranked)
    requires forall i :: 0 <= i < |ranked| ==> ranked[i].count == multiset(ts)[ranked[i].title] > 0
    requires r <= ranked
    ensures Distinct(r)
    ensures Sorted(r)
    ensures forall i :: 0 <= i < |r| ==> r[i].count == multiset(ts)[r[i].title] > 0
    ensures forall i, x :: 0 <= i < |r| && x !in TitleColumn(r) ==> multiset(ts)[x] <= r[i].count
  {
    forall i | 0 <= i < |r|
      ensures r[i].count == multiset(ts)[r[i].title] > 0
    {
      assert r[i] == ranked[i];
    }
    forall i, x | 0 <= i < |r| && x !in TitleColumn(r)
      ensures multiset(ts)[x] <= r[i].count
    {
      if x in ts {
        var p :| 0 <= p < |ranked| && TitleColumn(ranked)[p] == x;
        assert ranked[i].count >= ranked[p].count;
      }
    }
  }
}

