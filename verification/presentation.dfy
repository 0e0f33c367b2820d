/**
  Turning the ranked top sellers into what the bar chart is fed: three
  parallel columns, the order of the categorical axis, the end of the count
  axis and the "No Data" signal. Chart objects themselves are not modelled.
 */
module Presentation {
  import opened ShortTitle
  import opened Sales
  import opened Ranking
  import opened Aggregator

  /** The chart's data source: short title, count and full title per bar. */
  datatype Table = Table(shortTitles: seq<string>, counts: seq<nat>, fullTitles: seq<string>)

  /** Everything one recomputation hands to the chart. */
  datatype RenderModel = RenderModel(table: Table, factors: seq<string>, axisEnd: nat, noData: bool)

  /** The settings of the three controls: the category control's value,
      "Last N Days" and "Number of Top Sellers". */
  datatype Command = Command(selection: string, windowDays: int, limit: nat)

  /** The row shown in place of an empty result. */
  const Placeholder: Entry := Entry("", 0)

  /** The controls' settings when the page is first drawn. */
  const DefaultWindow: int := 29
  const DefaultLimit: nat := 10

  function Reverse<T>(s: seq<T>): (r: seq<T>)
    ensures |r| == |s|
    ensures forall i :: 0 <= i < |s| ==> r[i] == s[|s| - 1 - i]
  {
    if s == [] then [] else Reverse(s[1..]) + [s[0]]
  }

  /** The largest count in a non-empty column. */
  function MaxCount(cs: seq<nat>): (m: nat)
    requires |cs| > 0
    ensures forall i :: 0 <= i < |cs| ==> cs[i] <= m
    ensures m in cs
  {
    if |cs| == 1 then cs[0]
    else
      var rest := MaxCount(cs[1..]);
      if cs[0] >= rest then cs[0] else rest
  }

  /** The three columns for a list of rows, in row order. */
  function Columns(rows: seq<Entry>): (t: Table)
    ensures Shows(t, rows)
  {
    Table(seq(|rows|, i requires 0 <= i < |rows| => TrimTitle(rows[i].title)),
          seq(|rows|, i requires 0 <= i < |rows| => rows[i].count),
          TitleColumn(rows))
  }

  /** `t` shows `rows` in order: one bar per row with its full title, its
      count and its short title. */
  predicate Shows(t: Table, rows: seq<Entry>) {
    && |t.shortTitles| == |t.counts| == |t.fullTitles| == |rows|
    && forall i :: 0 <= i < |rows| ==>
      && t.fullTitles[i] == rows[i].title
      && t.counts[i] == rows[i].count
      && t.shortTitles[i] == TrimTitle(rows[i].title)
  }

  /** `r` lists the elements of `s` from last to first. */
  predicate IsReverseOf<T(==)>(r: seq<T>, s: seq<T>) {
    |r| == |s| && forall i :: 0 <= i < |s| ==> r[i] == s[|s| - 1 - i]
  }

  /** The adapter. An empty ranking is replaced by the placeholder row and
      raises the no-data signal; the axis lists the short titles bottom-up,
      and the count axis ends one past the longest bar. */
  function Adapt(ranked: seq<Entry>): (m: RenderModel)
    ensures m.noData <==> ranked == []
    ensures Shows(m.table, if ranked == [] then [Placeholder] else ranked)
    ensures IsReverseOf(m.factors, m.table.shortTitles)
    ensures forall i :: 0 <= i < |m.table.counts| ==> m.table.counts[i] < m.axisEnd
    ensures exists i :: 0 <= i < |m.table.counts| && m.axisEnd == m.table.counts[i] + 1
  {
    var rows := if ranked == [] then [Placeholder] else ranked;
    var table := Columns(rows);
    var top := MaxCount(table.counts);
    var m := RenderModel(table, Reverse(table.shortTitles), top + 1, ranked == []);
    AdaptAxis(table.counts, top);
    m
  }

  lemma AdaptAxis(counts: seq<nat>, top: nat)
    requires (forall i :: 0 <= i < |counts| ==> counts[i] <= top) && top in counts
    ensures exists i :: 0 <= i < |counts| && top + 1 == counts[i] + 1
  {
    var k :| 0 <= k < |counts| && counts[k] == top;
  }

  /** An empty result is drawn as one empty bar of length 0 with the
      no-data signal raised, and the count axis ends at 1. */
  lemma AdaptEmpty()
    ensures Adapt([]) == RenderModel(Table([""], [0], [""]), [""], 1, true)
  {
    AdaptDrawsBars([]);
    NoDataChart(Adapt([]));
  }

  /** The only agreeing "No Data" chart is the placeholder bar. */
  lemma NoDataChart(m: RenderModel)
    requires DrawsBars(m) && m.noData
    ensures m == RenderModel(Table([""], [0], [""]), [""], 1, true)
  {
    assert m.factors == [m.table.shortTitles[0]];
  }

  /** Reading the axis factors back to front gives the bars in rank order,
      and every axis label fits the 30-character width. */
  lemma FactorsAreShortTitlesReversed(ranked: seq<Entry>)
    ensures Reverse(Adapt(ranked).factors) == Adapt(ranked).table.shortTitles
    ensures forall i :: 0 <= i < |Adapt(ranked).factors| ==> |Adapt(ranked).factors[i]| <= MaxWidth
  {
    var m := Adapt(ranked);
    var rows := if ranked == [] then [Placeholder] else ranked;
    ReverseUndoes(m.factors, m.table.shortTitles);
    ShortLabels(m.factors, m.table, rows);
  }

  /** Reversing a reversed sequence gives back the original. */
  lemma ReverseUndoes<T>(r: seq<T>, s: seq<T>)
    requires IsReverseOf(r, s)
    ensures Reverse(r) == s
  {
    var b := Reverse(r);
    forall i | 0 <= i < |s|
      ensures b[i] == s[i]
    {
      assert b[i] == r[|r| - 1 - i];
    }
  }

  /** Labels read off a table that shows some rows all fit the axis width. */
  lemma ShortLabels(f: seq<string>, t: Table, rows: seq<Entry>)
    requires Shows(t, rows) && IsReverseOf(f, t.shortTitles)
    ensures forall i :: 0 <= i < |f| ==> |f[i]| <= MaxWidth
  {
    forall i | 0 <= i < |f|
      ensures |f[i]| <= MaxWidth
    {
      assert f[i] == TrimTitle(rows[|rows| - 1 - i].title);
    }
  }

  /** The columns, the axis list and the axis end of `m` agree: each bar's
      short title is its trimmed full title, the axis lists the short titles
      bottom-up, the count axis ends one past the longest bar, and the
      "No Data" chart is the one empty placeholder bar. */
  predicate DrawsBars(m: RenderModel) {
    var t := m.table;
    && |t.shortTitles| == |t.counts| == |t.fullTitles|
    && (forall i :: 0 <= i < |t.counts| ==> t.shortTitles[i] == TrimTitle(t.fullTitles[i]))
    && IsReverseOf(m.factors, t.shortTitles)
    && (forall i :: 0 <= i < |t.counts| ==> t.counts[i] < m.axisEnd)
    && (exists i :: 0 <= i < |t.counts| && m.axisEnd == t.counts[i] + 1)
    && (m.noData ==> t == Table([""], [0], [""]))
  }

  /** The bars of `t` are the top sellers of the selection: at most `limit`
      of them, with distinct full titles, each carrying the true positive
      count of its title, longest first. No title left out sold more than a
      title shown, and with fewer than `limit` bars none was left out. */
  ghost predicate BarsAreTopSellers(t: Table, txns: seq<Txn>, cat: Category, windowDays: int, limit: nat) {
    && |t.counts| == |t.fullTitles| <= limit
    && (forall i :: 0 <= i < |t.counts| ==>
         t.counts[i] == CountSold(txns, cat, windowDays, t.fullTitles[i]) > 0)
    && (forall i, j :: 0 <= i < j < |t.counts| ==> t.counts[i] >= t.counts[j])
    && (forall i, j :: 0 <= i < |t.fullTitles| && 0 <= j < |t.fullTitles| && i != j ==>
         t.fullTitles[i] != t.fullTitles[j])
    && (forall i, x :: 0 <= i < |t.counts| && x !in t.fullTitles ==>
         CountSold(txns, cat, windowDays, x) <= t.counts[i])
    && (|t.counts| < limit ==> forall x :: CountSold(txns, cat, windowDays, x) > 0 ==> x in t.fullTitles)
  }

  /** `m` draws the top sellers of the selection. With room for a row,
      "No Data" is signalled exactly when nothing is selected; otherwise the
      bars are the top sellers. */
  ghost predicate ChartsTopSellers(m: RenderModel, txns: seq<Txn>, cat: Category, windowDays: int, limit: nat) {
    && DrawsBars(m)
    && (limit >= MinLimit ==>
         (m.noData <==> forall i :: 0 <= i < |txns| ==> !Selected(txns[i], cat, windowDays)))
    && (!m.noData ==> BarsAreTopSellers(m.table, txns, cat, windowDays, limit))
  }

  /** One full recomputation after a control changes. */
  function Recompute(txns: seq<Txn>, cmd: Command): (m: RenderModel)
    requires ValidWindow(cmd.windowDays)
    ensures ChartsTopSellers(m, txns, SelectedCategory(cmd.selection), cmd.windowDays, cmd.limit)
  {
    var cat := SelectedCategory(cmd.selection);
    var ranked := TopSellers(txns, cat, cmd.windowDays, cmd.limit);
    var m := Adapt(ranked);
    AdaptedTopSellers(txns, cat, cmd.windowDays, cmd.limit, ranked, m);
    m
  }

  /** What the chart shows for any ranking that keeps the promises of
      `TopSellers`. */
  lemma AdaptedTopSellers(txns: seq<Txn>, cat: Category, windowDays: int, limit: nat, ranked: seq<Entry>, m: RenderModel)
    requires IsTopSellers(ranked, txns, cat, windowDays, limit)
    requires m == Adapt(ranked)
    ensures ChartsTopSellers(m, txns, cat, windowDays, limit)
  {
    AdaptDrawsBars(ranked);
    if limit >= MinLimit {
      EmptyIffNoneSold(txns, cat, windowDays, limit, ranked);
    }
    if ranked != [] {
      RankedBars(m.table, ranked, txns, cat, windowDays, limit);
    }
  }

  /** The adapter's columns, axis list and axis end always agree. */
  lemma AdaptDrawsBars(ranked: seq<Entry>)
    ensures DrawsBars(Adapt(ranked))
  {
    var m := Adapt(ranked);
    var rows := if ranked == [] then [Placeholder] else ranked;
    assert Shows(m.table, rows);
    if ranked == [] {
      assert m.table == Table([""], [0], [""]);
    }
  }

  /** A table showing a ranking that keeps the promises of `TopSellers`
      has the top sellers as its bars. */
  lemma RankedBars(t: Table, ranked: seq<Entry>, txns: seq<Txn>, cat: Category, windowDays: int, limit: nat)
    requires Shows(t, ranked)
    requires IsTopSellers(ranked, txns, cat, windowDays, limit)
    ensures BarsAreTopSellers(t, txns, cat, windowDays, limit)
  {
    assert t.fullTitles == TitleColumn(ranked);
  }

  /** The first chart, drawn before any control moves, with no count axis
      end (its range is a rendering setting). */
  datatype FirstChart = FirstChart(table: Table, factors: seq<string>)

  /** The first render: the default window and limit over all categories.
      Unlike a recomputation it has no placeholder row, so when nothing falls
      in the default window the table and the axis are empty; otherwise it
      draws what a recomputation with the same settings draws. */
  function InitialRender(txns: seq<Txn>): (r: FirstChart)
    ensures r.table.counts == [] <==> forall i :: 0 <= i < |txns| ==> !Selected(txns[i], All, DefaultWindow)
    ensures r.table.counts == [] ==> r == FirstChart(Table([], [], []), [])
    ensures r.table.counts != [] ==>
      var m := Recompute(txns, Command(AllOption, DefaultWindow, DefaultLimit));
      r.table == m.table && r.factors == m.factors
  {
    var ranked := TopSellers(txns, All, DefaultWindow, DefaultLimit);
    EmptyIffNothingSelected(txns, All, DefaultWindow, DefaultLimit);
    var table := Columns(ranked);
    FirstChart(table, Reverse(table.shortTitles))
  }
}
