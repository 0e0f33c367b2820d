# Bookstore dashboard: top sellers

A Dafny model of the top-sellers recomputation in the bookstore dashboard
(`app/main.py`). The dashboard shows a horizontal bar chart of the best-selling
book titles. It has three controls: a category selector with an "All" option,
a "Last N Days" slider (1 to 29) and a "Number of Top Sellers" slider (1 to 25).

Whenever a control changes, the dashboard does the following:

1. It selects the sales whose invoice date falls after day `30 - N` and on or
   before 30 November 2015. Unless "All" is chosen, the sales must also be in
   the chosen category.
2. It counts the selected sales per title and ranks the titles by count,
   largest first.
3. It keeps the first `n` rows.
4. It hands the rows to the chart:
   - each title is cut to at most 30 characters for the axis;
   - the axis lists the short titles bottom-up;
   - the count axis ends one past the longest bar;
   - an empty result is drawn as one empty bar with a "No Data" notice.

Modules, in dependency order:

- `ShortTitle` (`short_title.dfy`): the 30-character display form of a title.
- `Sales` (`sales.dfy`): transactions, the category control, the day window, the selection, and a reference count `CountSold` of a title's selected sales.
- `Ranking` (`ranking.dfy`): `value_counts` as a tally of distinct titles in first-seen order followed by a stable insertion sort by count, largest first; then the slice of the first `limit` rows.
- `Aggregator` (`aggregator.dfy`): `TopSellers`, the composition of the two above, with its promises stated against `CountSold`.
- `Presentation` (`presentation.dfy`): the adapter from ranked rows to the chart's columns, axis factors, axis end and no-data flag; one full recomputation; the first render.

Dates are day numbers counted from 31 October 2015, so 30 November 2015 is day 30.
The window of an `N`-day setting is the half-open interval `(30 - N, 30]`.

## Model

| member | source | states |
|---|---|---|
| ShortTitle.TrimTitle | app/main.py:42-49 | The result is at most 30 characters. A title of at most 30 characters comes back unchanged. A longer one becomes exactly 30 characters: its first 27 followed by "...". |
| ShortTitle.TrimTitleFixedPoint | app/main.py:45-49 | A title is its own short title if and only if it has at most 30 characters. |
| ShortTitle.TrimTitleIdempotent | app/main.py:42-49 | Trimming a short title again leaves it unchanged. |
| ShortTitle.TrimTitleForgetsTail | app/main.py:45-47 | Two titles longer than 30 characters get the same short title if and only if their first 27 characters agree, so the axis label alone cannot tell them apart. |
| Sales.SelectedCategory | app/main.py:21 | The control value "All" is the no-filter sentinel, and only that value is. Every other value selects the category of exactly that name. |
| Sales.Unique | app/main.py:73 | The result holds exactly the elements of its input, each once, in order of first appearance: an element listed earlier occurs in the input before every occurrence of an element listed later. |
| Sales.CategoryOptions | app/main.py:73 | The options start with "All". The remaining options are exactly the categories present in the sales data, with no repeats, in the order in which each category first occurs in the data. |
| Sales.Filter | app/main.py:20-25 | A transaction is kept, with all its copies, if and only if its day is in the window and it matches the category. No other transaction is kept. |
| Sales.FilteredTitleCount | app/main.py:22-25 | Counting a title's occurrences in the title column of the filtered table gives the reference count `CountSold` of its selected sales. |
| Sales.CountSoldPositive | app/main.py:20-25 | A title's count is positive if and only if some transaction with that title is in the window and the category. |
| Sales.WiderWindowSellsMore | app/main.py:20-22 | A longer "Last N Days" window never lowers a title's count. |
| Sales.CategorySellsNoMoreThanAll | app/main.py:21-25 | One category never counts more sales of a title than "All" does. |
| Sales.CategoryCountsSplit | app/main.py:21-25 | Under "All", a title's count is the sum of its count in one category and its in-window sales in every other category. |
| Ranking.Bump | app/main.py:22 | Recording one sale of a title raises that title's count by one and leaves every other count alone. The title set gains exactly that title, and titles stay distinct. |
| Ranking.Tally | app/main.py:22 | The tally has one row per distinct title, exactly the titles that occur. Each row's count is the title's multiplicity, and that count is positive. |
| Ranking.Insert | app/main.py:22 | Inserting a row into a table sorted by count keeps it sorted. The result is the old table plus that row, as a multiset, and titles stay distinct when the new title was absent. |
| Ranking.Sort | app/main.py:22 | The result is sorted by non-increasing count. It is a permutation of the input and keeps the same titles and their distinctness. |
| Ranking.ValueCounts | app/main.py:22 | Every title occurs in the result exactly once, with its multiplicity as its count. Counts are positive and non-increasing. |
| Ranking.TopCounts | app/main.py:22 | The result has at most `limit` rows, with distinct titles, true counts, non-increasing order. It is a top-k: no title left out occurs more often than any kept title. If fewer than `limit` rows come back, no title was left out. |
| Aggregator.TopSellers | app/main.py:20-25 | The result keeps every promise of `IsTopSellers`. It has at most `limit` rows, sorted by non-increasing count, with distinct titles. Each row's count is its title's positive count among the selected sales. No unlisted title sold more than any listed one. If the result is cut short, every sold title is listed. |
| Aggregator.WindowEdges | app/main.py:20-22 | A sale dated on the reference date is counted: alone it yields the single row (title, 1). A sale dated on the window's excluded start day is not counted: alone it yields an empty result. |
| Aggregator.EmptyIffNothingSelected | app/main.py:20-28 | With room for at least one row, the result is empty if and only if no transaction is in the window and the category. |
| Aggregator.WiderWindowKeepsTitles | app/main.py:20-25 | Every title ranked for a shorter window sells at least as many copies in a longer one. If the longer window's result is not cut short, it lists every title of the shorter one. |
| Aggregator.TwoTitlesRankByCount | app/main.py:22 | Suppose exactly two titles sold, with different counts, and the limit has room for both. Then the result is the larger seller followed by the smaller, each with its count. |
| Presentation.Reverse | app/main.py:37 | Element `i` of the result is the input's element `i` places from its end, counting the last as 0. |
| Presentation.MaxCount | app/main.py:38 | The result is one of the counts and is at least every count. |
| Presentation.Columns | app/main.py:34-40 | Row `i` of the table carries the full title, the count and the trimmed title of ranked row `i`. |
| Presentation.Adapt | app/main.py:26-40 | The no-data flag is raised if and only if the ranking is empty. An empty ranking becomes the single placeholder row ("", 0); otherwise the table shows the ranked rows in order. The axis factors are the short titles reversed. The axis end is one more than the largest count. |
| Presentation.AdaptEmpty | app/main.py:28-38 | An empty ranking draws one empty bar of length 0, with the no-data flag raised and an axis that ends at 1. |
| Presentation.FactorsAreShortTitlesReversed | app/main.py:36-37 | Reading the axis factors back to front gives the short-title column in rank order. Every axis label fits in 30 characters. |
| Presentation.Recompute | app/main.py:17-40 | The chart agrees with itself: each short title is the trimmed full title, the axis lists the short titles bottom-up, and the count axis ends one past the longest bar. With room for a row, the chart signals "No Data" if and only if nothing is selected, and then it shows only the empty placeholder bar. Otherwise the bars are the top sellers: at most `n` of them, with distinct full titles, each carrying its title's true positive count, never growing down the chart. No title left out sold more than a title shown, and with fewer than `n` bars none was left out. |
| Presentation.AdaptedTopSellers | app/main.py:20-40 | Every ranking that keeps the promises of `TopSellers`, once adapted, gives a chart with all the properties `Recompute` states. |
| Presentation.AdaptDrawsBars | app/main.py:26-40 | Whatever the ranking, the adapter's short titles are the trimmed full titles, its axis lists them bottom-up, its count axis ends one past the longest bar, and its "No Data" chart is the one placeholder bar. |
| Presentation.InitialRender | app/main.py:87-102 | The first render uses all categories, the 29-day window and the limit of 10, and has no placeholder row. Its table is empty if and only if nothing falls in that window, and then its axis list is empty as well. Otherwise its bars and axis factors are those of the recomputation with the same settings. |

## Left out

- Reading the sales CSV file and parsing its dates (app/main.py:68-69) is left out: it is file I/O and library date parsing, so transactions are given as already-parsed day numbers.
- The Bokeh objects are left out because they are rendering: the heading text, the widgets, the figure, the bars, the hover tool, the data sources, the layout and the document root (app/main.py:51-64, 74-85, 94-119).
- The `on_change` callbacks and the module-level mutable state are left out: `Recompute` is a pure function of the sales and a `Command` holding the three control values.
- The "No Data" text source and its position (app/main.py:31, 104-107) are left out. The model keeps only whether the notice is visible, as the `noData` flag. The initial visibility at line 108 belongs to the chart objects and is not modelled.
- Building the window's start date as a zero-padded string, and comparing it as a string against the parsed dates (app/main.py:20, 81), is not modelled. The start is the day number `30 - N`, which is valid for the slider's range 1 to 29.
- Ranking.ValueCounts: the order of titles with equal counts is the library's choice and is not visible in the source. The model breaks ties by first occurrence in the filtered table but states only that counts never increase. The same holds for Ranking.TopCounts, Aggregator.TopSellers and Presentation.Recompute.
- Sales.Filter: missing titles, which `value_counts` drops, are not modelled; every transaction carries a title string. Missing categories are outside the model too: every transaction carries a category string.
- Presentation.Recompute: with a limit of 0 the source's slice is empty. The model computes the same thing, but the no-data equivalence is stated only for limits of at least 1, the lower end of the slider.
- Presentation.InitialRender: the count-axis range of the first plot (app/main.py:102) is not modelled. It is the largest count plus 5, and not a number when the table is empty.
