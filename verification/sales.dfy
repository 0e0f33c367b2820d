/**
  Sales transactions and the selection of those that count towards the top
  sellers: the trailing day window that ends on the reference date, and the
  category filter with its "All" sentinel.
 */
module Sales {

  /** Days are numbered from 31 October 2015, so day 30 is 30 November 2015,
      the fixed reference date that ends every window. */
  const DayMax: int := 30

  /** Bounds of the "Last N Days" control. */
  const MinWindow: int := 1
  const MaxWindow: int := 29

  /** One sold copy: the invoice day, the book title and its category. */
  datatype Txn = Txn(day: int, title: string, category: string)

  /** The category selection: the "All" sentinel or one category name. */
  datatype Category = All | Cat(name: string)

  /** The option of the category control that stands for every category. */
  const AllOption: string := "All"

  /** Reads the category control: its "All" option is the sentinel and any
      other value names one category. */
  function SelectedCategory(value: string): (c: Category)
    ensures c.All? <==> value == AllOption
    ensures c.Cat? ==> c.name == value
  {
    if value == AllOption then All else Cat(value)
  }

  /** The distinct elements of `xs` in order of first appearance: an
      element listed earlier occurs in `xs` before every occurrence of an
      element listed later. */
  function Unique(xs: seq<string>): (u: seq<string>)
    ensures forall x :: x in u <==> x in xs
    ensures forall i, j :: 0 <= i < j < |u| ==> u[i] != u[j]
    ensures forall i, j, q :: 0 <= i < j < |u| && 0 <= q < |xs| && xs[q] == u[j] ==> u[i] in xs[..q]
  {
    if xs == [] then []
    else
      var init, last := xs[..|xs| - 1], xs[|xs| - 1];
      assert xs == init + [last];
      var u := Unique(init);
      var r := if last in u then u else u + [last];
      UniqueStep(init, last, u, r);
      r
  }

  /** Appending `last` to `init` keeps the first-appearance order of the
      distinct elements, whether or not `last` is new. */
  lemma UniqueStep(init: seq<string>, last: string, u: seq<string>, r: seq<string>)
    requires forall x :: x in u <==> x in init
    requires forall i, j, q :: 0 <= i < j < |u| && 0 <= q < |init| && init[q] == u[j] ==> u[i] in init[..q]
    requires r == if last in u then u else u + [last]
    ensures forall i, j, q :: 0 <= i < j < |r| && 0 <= q < |init + [last]| && (init + [last])[q] == r[j] ==> r[i] in (init + [last])[..q]
  {
    var xs := init + [last];
    forall i, j, q | 0 <= i < j < |r| && 0 <= q < |xs| && xs[q] == r[j]
      ensures r[i] in xs[..q]
    {
      if q < |init| {
        assert xs[q] == init[q] && xs[..q] == init[..q];
      } else {
        assert xs[..q] == init;
        assert r[i] == u[i];
      }
    }
  }

  /** The category column of a table of transactions. Like `TitlesOf`
      and `Ranking.TitleColumn` it projects one field of a record, each
      over its own record type. */
  function CategoriesOf(txns: seq<Txn>): (r: seq<string>)
    ensures |r| == |txns|
    ensures forall i :: 0 <= i < |txns| ==> r[i] == txns[i].category
  {
    seq(|txns|, i requires 0 <= i < |txns| => txns[i].category)
  }

  /** The options of the category control: "All" first, then each category
      present in the data once, in order of first appearance. */
  function CategoryOptions(txns: seq<Txn>): (opts: seq<string>)
    ensures |opts| >= 1 && opts[0] == AllOption
    ensures forall c :: c in opts[1..] <==> exists i :: 0 <= i < |txns| && txns[i].category == c
    ensures forall i, j :: 1 <= i < j < |opts| ==> opts[i] != opts[j]
    ensures forall i, j, q :: 1 <= i < j < |opts| && 0 <= q < |txns| && txns[q].category == opts[j] ==>
      exists p :: 0 <= p < q && txns[p].category == opts[i]
  {
    var cats := CategoriesOf(txns);
    var u := Unique(cats);
    var opts := [AllOption] + u;
    assert opts[1..] == u;
    forall c
      ensures c in u <==> exists i :: 0 <= i < |txns| && txns[i].category == c
    {
      if c in cats {
        var i :| 0 <= i < |cats| && cats[i] == c;
        assert txns[i].category == c;
      }
      if exists i :: 0 <= i < |txns| && txns[i].category == c {
        var i :| 0 <= i < |txns| && txns[i].category == c;
        assert cats[i] == c;
      }
    }
    forall i, j, q | 1 <= i < j < |opts| && 0 <= q < |txns| && txns[q].category == opts[j]
      ensures exists p :: 0 <= p < q && txns[p].category == opts[i]
    {
      assert cats[q] == u[j - 1];
      assert u[i - 1] in cats[..q];
      var p :| 0 <= p < q && cats[..q][p] == u[i - 1];
      assert txns[p].category == opts[i];
    }
    opts
  }

  predicate ValidWindow(windowDays: int) {
    MinWindow <= windowDays <= MaxWindow
  }

  /** The excluded first day of an N-day window. */
  function WindowStart(windowDays: int): int {
    DayMax - windowDays
  }

  /** The window is open at its start and closed at the reference date. */
  predicate InWindow(day: int, windowDays: int) {
    WindowStart(windowDays) < day <= DayMax
  }

  /** "All" lets every category through; otherwise the match is exact. */
  predicate Matches(t: Txn, cat: Category) {
    match cat
    case All => true
    case Cat(name) => t.category == name
  }

  predicate Selected(t: Txn, cat: Category, windowDays: int) {
    InWindow(t.day, windowDays) && Matches(t, cat)
  }

  /** The transactions that count, in their original order. */
  function Filter(txns: seq<Txn>, cat: Category, windowDays: int): (r: seq<Txn>)
    ensures forall t :: multiset(r)[t] == if Selected(t, cat, windowDays) then multiset(txns)[t] else 0
    ensures forall i :: 0 <= i < |r| ==> Selected(r[i], cat, windowDays)
  {
    if txns == [] then []
    else
      assert txns == [txns[0]] + txns[1..];
      var rest := Filter(txns[1..], cat, windowDays);
      if Selected(txns[0], cat, windowDays) then [txns[0]] + rest else rest
  }

  /** The title column of a table of transactions: the column
      `value_counts` runs over. `Ranking.TitleColumn` is the same
      projection for ranked rows, a different record type. */
  function TitlesOf(txns: seq<Txn>): (r: seq<string>)
    ensures |r| == |txns|
    ensures forall i :: 0 <= i < |txns| ==> r[i] == txns[i].title
  {
    seq(|txns|, i requires 0 <= i < |txns| => txns[i].title)
  }

  /** Reference count: how many selected transactions sold `title`. */
  function CountSold(txns: seq<Txn>, cat: Category, windowDays: int, title: string): nat {
    if txns == [] then 0
    else
      (if Selected(txns[0], cat, windowDays) && txns[0].title == title then 1 else 0)
      + CountSold(txns[1..], cat, windowDays, title)
  }

  /** Counting titles in the filtered table agrees with the reference count. */
  lemma {:induction false} FilteredTitleCount(txns: seq<Txn>, cat: Category, windowDays: int, title: string)
    ensures multiset(TitlesOf(Filter(txns, cat, windowDays)))[title] == CountSold(txns, cat, windowDays, title)
  {
    if txns != [] {
      var rest := Filter(txns[1..], cat, windowDays);
      FilteredTitleCount(txns[1..], cat, windowDays, title);
      if Selected(txns[0], cat, windowDays) {
        assert Filter(txns, cat, windowDays) == [txns[0]] + rest;
        TitlesOfCons(txns[0], rest);
        assert multiset([txns[0].title] + TitlesOf(rest)) == multiset{txns[0].title} + multiset(TitlesOf(rest));
      } else {
        assert Filter(txns, cat, windowDays) == rest;
      }
    }
  }

  lemma TitlesOfCons(t: Txn, rest: seq<Txn>)
    ensures TitlesOf([t] + rest) == [t.title] + TitlesOf(rest)
  {
  }

  /** A one-transaction table sells its title once if it is selected. */
  lemma CountSoldSingle(t: Txn, cat: Category, windowDays: int, title: string)
    ensures CountSold([t], cat, windowDays, title) == if Selected(t, cat, windowDays) && t.title == title then 1 else 0
  {
    assert [t][1..] == [];
  }

  /** A title is sold in the selection iff some selected transaction has it. */
  lemma {:induction false} CountSoldPositive(txns: seq<Txn>, cat: Category, windowDays: int, title: string)
    ensures CountSold(txns, cat, windowDays, title) > 0
        <==> exists i :: 0 <= i < |txns| && Selected(txns[i], cat, windowDays) && txns[i].title == title
  {
    if txns != [] {
      CountSoldPositive(txns[1..], cat, windowDays, title);
      if CountSold(txns[1..], cat, windowDays, title) > 0 {
        var i :| 0 <= i < |txns[1..]| && Selected(txns[1..][i], cat, windowDays) && txns[1..][i].title == title;
        assert txns[i + 1] == txns[1..][i];
      }
      if exists i :: 0 <= i < |txns| && Selected(txns[i], cat, windowDays) && txns[i].title == title {
        var i :| 0 <= i < |txns| && Selected(txns[i], cat, windowDays) && txns[i].title == title;
        if i > 0 {
          assert txns[1..][i - 1] == txns[i];
        }
      }
    }
  }

  /** Widening the window never lowers a title's count. */
  lemma {:induction false} WiderWindowSellsMore(txns: seq<Txn>, cat: Category, narrow: int, wide: int, title: string)
    requires narrow <= wide
    ensures CountSold(txns, cat, narrow, title) <= CountSold(txns, cat, wide, title)
  {
    if txns != [] {
      WiderWindowSellsMore(txns[1..], cat, narrow, wide, title);
    }
  }

  /** A single category never sells more of a title than all categories. */
  lemma {:induction false} CategorySellsNoMoreThanAll(txns: seq<Txn>, name: string, windowDays: int, title: string)
    ensures CountSold(txns, Cat(name), windowDays, title) <= CountSold(txns, All, windowDays, title)
  {
    if txns != [] {
      CategorySellsNoMoreThanAll(txns[1..], name, windowDays, title);
    }
  }

  /** Over all categories, each title's count splits between its own
      category and the rest. */
  lemma {:induction false} CategoryCountsSplit(txns: seq<Txn>, name: string, windowDays: int, title: string)
    ensures CountSold(txns, All, windowDays, title)
         == CountSold(txns, Cat(name), windowDays, title) + CountOtherCategories(txns, name, windowDays, title)
  {
    if txns != [] {
      CategoryCountsSplit(txns[1..], name, windowDays, title);
    }
  }

  /** Sales of `title` in the window outside category `name`. */
  function CountOtherCategories(txns: seq<Txn>, name: string, windowDays: int, title: string): nat {
    if txns == [] then 0
    else
      (if InWindow(txns[0].day, windowDays) && txns[0].category != name && txns[0].title == title then 1 else 0)
      + CountOtherCategories(txns[1..], name, windowDays, title)
  }
}
