# Keyword engagement dashboard: the filter-and-aggregate core

This project models the analysis behind a dashboard of social-media posts by a news outlet. The dashboard is a single Streamlit script, `app.py`. An analyst types a search term. The script splits the posts into those whose `text` or `fulltext` contains the term, ignoring case, and those that do not. It then shows:

- how many posts fall on each side, and the matched share in percent;
- for each day, the percentage of that day's posts that match;
- the mean of nine engagement metrics (seven reaction counts, shares, comments) on each side, skipping missing cells;
- the per-metric difference of those means, with each bar red when the difference is positive and green otherwise;
- the first 100 rows of the whole table or of either side.

Everything here is a pure function over a `seq<Post>`. A `Post` has an integer day key, two optional text cells and nine optional `nat` metric cells. A missing cell, and pandas' NaN, is `Option.None`. A pandas Series indexed by day or by metric is a `map`, and index alignment is modelled as a union of keys with NaN where one side has no entry. Percentages and means use Dafny's exact `real`.

Modules, in dependency order:

- `Wrappers` (`wrappers.dfy`): `Option`.
- `Posts` (`posts.dfy`): the row record and the metric column list.
- `Indexing` (`indexing.dfy`): boolean indexing with `mask` and `~mask`.
- `Search` (`search.dfy`): case folding, literal substring search, the search mask and the two halves.
- `Daily` (`daily.dfy`): `value_counts`, aligned division, `fillna(0)`, and the sum of a day histogram.
- `Metrics` (`metrics.dfy`): the NaN-skipping mean, per-subset means, differences and bar colours.
- `Dashboard` (`dashboard.dfy`): share and counts, the 100-row view, the page with its guards, and a worked example.

Five of the pandas steps have a separate reference definition, and lemmas connect each pair. `str.contains` (`Contains`) is tied to `OccursIn`, an "occurs at some position" predicate. The mask is tied to `Matches`. Boolean indexing is tied to the ascending list of true positions (`TrueIndices`). `value_counts` is tied to the multiset of the date column. `mean()` is tied to `fillna(0).sum() / count()`. The remaining steps have no second definition; their lemmas state what they compute. These steps are `fillna("")` (`TextOrEmpty`), `~` (`Not`), the aligned division (`DividePercent`), `fillna(0)` (`FillNa`), the aligned subtraction (`Differences`) and `head` (`Head`).

## Model

| member | source | states |
|---|---|---|
| `Posts.AllMetricsColumnsExact` | app.py:23-25 | The metric column list has nine distinct entries covering every metric: the seven reactions first, then shares and comments. |
| `Search.Lower` | app.py:40-41 | Case folding maps each ASCII or Latin-1 capital to its lower-case partner (code point + 32) and leaves every other character alone; its result is never a capital. |
| `Search.LowerStr` | app.py:40-41 | Folding a string folds it character by character and keeps its length. |
| `Search.LowerStrIdempotent` | app.py:40-41 | Folding twice is the same as folding once. |
| `Search.Contains` | app.py:40-41 | The substring scan finds a needle only in a haystack at least as long; `ContainsIff` gives its full meaning. |
| `Search.ContainsIff` | app.py:40-41 | The substring scan returns true exactly when the needle occurs at some position of the haystack. |
| `Search.TextOrEmpty` | app.py:40-41 | `fillna("")` reads a missing text cell as the empty string and leaves a present one as it is. |
| `Search.EmptyContainsNothing` | app.py:40-41 | The empty string (a missing cell after `fillna("")`) contains no non-empty term. |
| `Search.CellMatchesMeaning` | app.py:40-41 | One column's `fillna("").str.contains(term, case=False)` test on a cell is true exactly when the folded term occurs in the folded cell, with a missing cell read as `""`. |
| `Search.Mask` | app.py:38-44 | The search condition has one entry per row. |
| `Search.MaskAt` | app.py:38-42 | For a non-empty term, a row's mask entry is the logical or of the cell tests on its `text` and its `fulltext`. |
| `Search.MaskMeaning` | app.py:38-44 | A row's mask entry is true exactly when the term is non-empty and its folded form occurs in the folded `text` or the folded `fulltext`, with a missing cell read as `""`. |
| `Search.NullPostNeverMatches` | app.py:40-41 | A post whose text and fulltext are both missing matches no term, and its mask entry is false. |
| `Search.MatchesIgnoresTermCase` | app.py:40-41 | Two terms that fold to the same string match the same posts. |
| `Search.CaseInsensitiveExample` | app.py:40-41 | A post with text "Grün" matches both "grün" and "GRÜN". |
| `Indexing.Not` | app.py:47 | `~mask` has the same length and flips every entry. |
| `Indexing.Select` | app.py:46-47 | Boolean indexing never yields more rows than the table. |
| `Indexing.TrueIndices` | app.py:46-47 | The selected positions are in range, strictly ascending, and are exactly the positions where the mask is true. |
| `Indexing.SelectIsIndexed` | app.py:46-47 | The k-th row of a boolean selection is the row at the k-th true position, so selection keeps order and never repeats a row. |
| `Indexing.SelectComplementary` | app.py:46-47 | Two masks that disagree at every position split a sequence: the multisets of the two selections add up to its multiset. |
| `Indexing.SelectSplit` | app.py:46-47 | A mask and its negation split a sequence: their sizes add up to its length and their multisets add up to its multiset. |
| `Indexing.SelectNone` | app.py:46 | A mask that is false everywhere selects no row. |
| `Indexing.SelectAll` | app.py:47 | A mask that is true everywhere selects the whole sequence, in order. |
| `Search.WithTerm` | app.py:46 | `df[search_condition]` has at most as many rows as the table; its rows are given by `PartitionKeepsOrder` and `WithTermMembership`. |
| `Search.WithoutTerm` | app.py:47 | `df[~search_condition]` has at most as many rows as the table; its rows are given by `PartitionKeepsOrder` and `WithoutTermMembership`. |
| `Search.PartitionByRow` | app.py:38-47 | Row i is selected into "with" exactly when it matches and into "without" exactly when it does not, so it lands in exactly one half. |
| `Search.PartitionKeepsOrder` | app.py:46-47 | Each half lists the table's rows at its ascending selected positions, in order and without duplicates. |
| `Search.PartitionComplete` | app.py:46-47 | The two halves' sizes add up to `len(df)`, and together they hold every row of the table exactly as often as the table does. |
| `Indexing.SelectMembership` | app.py:46-47 | An element is selected exactly when it sits at a position where the mask is true. |
| `Search.WithTermMembership` | app.py:46 | A post is in the "with" half exactly when it is a post of the table that matches. |
| `Search.WithoutTermMembership` | app.py:47 | A post is in the "without" half exactly when it is a post of the table that does not match. |
| `Search.EmptyTermPartition` | app.py:43-47 | For the empty term the "with" half is empty and the "without" half is the whole table. |
| `Daily.DateColumn` | app.py:75-78 | `df["date"]` has one entry per row, the row's date. |
| `Daily.DateColumnOfSelect` | app.py:78 | Taking the date column of a selection equals selecting from the date column. |
| `Daily.ValueCounts` | app.py:75 | `value_counts()` has exactly the distinct dates as keys, and maps each to its positive number of occurrences. |
| `Daily.DividePercent` | app.py:81 | Dividing two aligned series is indexed by the union of both indexes. |
| `Daily.FillNa` | app.py:82 | `fillna` keeps the index. |
| `Daily.PercentagePerDay` | app.py:75-82 | The filled percentage series has an entry for every date of the table or of the "with" half; `PercentageOnDay` gives each value. |
| `Daily.HitsAtMostTotal` | app.py:75-81 | On every day the "with" half has no more posts than the table, and a day with a match is a day of the table. |
| `Daily.PercentagePerDayDomain` | app.py:75-82 | The per-day percentage is defined for exactly the distinct dates of the whole table. |
| `Daily.PercentageOnDay` | app.py:75-82 | On each date of the table the percentage is 100 × matching posts / all posts of that day. It is 0 on a day without matches and always lies in [0, 100]. |
| `Daily.NoMatchesAllZero` | app.py:77-82 | With no matching post, every day's percentage is 0. |
| `Daily.Days` | app.py:75 | The distinct days of a date column, each listed once. |
| `Daily.CountsSumToLength` | app.py:75 | Adding up a date column's counts over any duplicate-free list of days that covers it gives the number of rows. |
| `Daily.HitsSumToMatched` | app.py:75-81 | Adding up the per-day match counts over all days of the table gives the size of the "with" half. |
| `Metrics.Column` | app.py:119-120 | `subset[k]` has one cell per post, that post's value of metric k or NaN. |
| `Metrics.DropNa` | app.py:119-120 | Dropping missing cells never lengthens the column. |
| `Metrics.DropNaMembers` | app.py:119-120 | A value survives dropping the missing cells exactly when some cell holds it. |
| `Metrics.DropNaAppend` | app.py:119-120 | Dropping missing cells works piecewise: on a concatenation it is the concatenation of the two results. |
| `Metrics.Mean` | app.py:119-120 | A column's mean is NaN exactly when every cell is missing. |
| `Metrics.DropNaCounts` | app.py:119-120 | Dropping missing cells keeps as many values as `count()` reports, with the total that `fillna(0).sum()` reports. |
| `Metrics.MeanIsSumOverCount` | app.py:119-121 | The mean is the sum of the present cells divided by how many there are. Missing cells count in neither, and with no present cell the mean is NaN. |
| `Metrics.MeanSkipsMissing` | app.py:119-121 | Inserting a missing cell anywhere in a column leaves its mean unchanged, so missing values are never counted as 0. |
| `Metrics.MeanBounds` | app.py:119-121 | When every present value lies between two bounds, the mean lies between them too. |
| `Metrics.MeanExample` | app.py:119-121 | Missing, 10 and 20 average to 15, whereas 0, 10 and 20 average to 10. |
| `Metrics.MeanMetrics` | app.py:119-121 | The per-subset summary has an entry for every metric. |
| `Metrics.MeanMetricsMeaning` | app.py:131-133 | A metric's subset mean is NaN exactly when no post of the subset has that metric; otherwise it is the sum of the present values over their count. |
| `Metrics.Lookup` | app.py:148 | Reading a metric from an aligned series gives a value only when the series has that metric, and NaN otherwise. |
| `Metrics.Minus` | app.py:148 | A difference is present exactly when both operands are present; NaN on either side propagates. |
| `Metrics.Differences` | app.py:148 | The difference series is indexed by the union of the two means' indexes. |
| `Metrics.DifferencesMeaning` | app.py:148 | Each difference is the "with" mean minus the "without" mean, and NaN when either one is missing. |
| `Metrics.DifferencesAntisymmetric` | app.py:148 | Swapping the two halves negates every difference. |
| `Metrics.BarColour` | app.py:151 | A bar is red only for a present difference, so a NaN difference gives green. |
| `Metrics.BarColours` | app.py:151 | There is one colour per metric, in column order. A bar is red exactly when its difference is present and greater than 0, and green otherwise (NaN included). |
| `Metrics.ColourOfDifference` | app.py:148-151 | For two mean tables with every metric, each metric's difference is the first mean minus the second (NaN if either is missing), and its bar is red exactly when that difference is present and positive. |
| `Metrics.SwappedColours` | app.py:151 | Swapping the halves turns a red bar green, and a bar whose two means differ changes colour. |
| `Dashboard.MatchedShare` | app.py:58 | The matched share is 100 × matches / total on a non-empty table and 0 on an empty one, so it always lies in [0, 100]. |
| `Dashboard.SharesComplement` | app.py:54-58 | On a non-empty table the matched share is 100 minus the share of the "without" half. |
| `Dashboard.EmptyTermShare` | app.py:38-58 | The empty term gives a share of 0. |
| `Dashboard.SummaryCounts` | app.py:35-58 | The total is `len(df)`, the matched count is the size of the "with" half and the unmatched count the size of the "without" half, and the two add up to the total. The share is `MatchedShare`: 100 × matched / total, or 0 for an empty table, within [0, 100]. |
| `Dashboard.Head` | app.py:182-186 | `head(n)` returns the first min(n, len) rows. |
| `Dashboard.DataView` | app.py:181-186 | The data tab never shows more than 100 rows; `DataViewMeaning` gives how many and which. |
| `Dashboard.DataViewMeaning` | app.py:181-186 | The data view has exactly min(100, n) rows, where n is the size of the chosen table, and they are that table's first rows. For "Alle" the chosen table is the whole table. Otherwise it is the chosen half, so every row shown matches ("mit") or no row shown matches ("ohne"); every row shown is a row of the table. |
| `Dashboard.Analyze` | app.py:35-151 | The time series and the differences panel show data only for a non-empty term; `AnalyzeGuards` and `AnalyzeDifferences` give each panel's content. |
| `Dashboard.AnalyzeGuards` | app.py:35-147 | The time series shows data exactly when the term is non-empty and some post matches. Each mean table shows data exactly when its half is non-empty. The differences and colours show data exactly when the term is non-empty and both halves are non-empty. A panel that shows data holds the right thing: the summary is `SummaryCounts`, the time series is the per-day percentage of the "with" half, and the "with" and "without" mean tables are the metric means of those halves. |
| `Dashboard.DifferencesNeedOnlyBothHalves` | app.py:143-147 | The differences panel shows data exactly when both mean tables do, because the empty term already leaves the "with" half empty. |
| `Dashboard.AnalyzeDifferences` | app.py:143-151 | When the differences panel shows data, it is the metric means of the "with" half minus those of the "without" half, and the colours are the bar colours of that series. |
| `Dashboard.AnalyzePerDay` | app.py:72-82 | When the time series shows data, it has one value per date of the table, equal to 100 × matches / posts on that day and within [0, 100]. |
| `Dashboard.ExampleMask` | app.py:38-42 | On the example table, "test" matches the first, second and fourth posts: in lower-case text, in upper-case fulltext only, and as the whole text. |
| `Dashboard.ExampleWithTerm` | app.py:46 | The "with" half of the example is its first, second and fourth posts. |
| `Dashboard.PerDayExample` | app.py:75-82 | On the example (three posts on day 1, two matching; one matching post on day 2) the per-day percentage is {1: 200/3, 2: 100}. |

## Left out

- The web interface is not modelled: page set-up, sidebar, text input, metric widgets, tabs, columns, radio button, info and warning messages, and the re-run on every interaction. The model instead takes the term and the view choice as parameters, and `Dashboard.Analyze` marks a panel that shows a message with `None`.
- Loading the spreadsheet over the network, the result cache, and `pd.to_datetime` are not modelled. These are I/O and library parsing. The `date` column arrives as integer keys, and `value_counts` groups equal keys. The script keeps the time of day (app.py:18) and never truncates to a date, so at app.py:75 and 78 it groups by exact timestamp. Reading the series as per-day counts, as this model does, therefore assumes that the spreadsheet stores dates without times.
- Building the charts with matplotlib and seaborn is not modelled. This is rendering through foreign libraries. The data the charts show (the per-day series, the differences and the colour list) is modelled.
- `sort_index()` is not modelled. The per-day series is a `map`, which has no order, so the ascending date order in which the chart draws it is not captured.
- `round(2)` of the means and the `:.1f` formatting of the share are not modelled. These are floating-point rounding and display only; means, differences and percentages are exact reals. As a result, the model's differences are taken between unrounded means, whereas the script subtracts means already rounded to 2 decimals. This shows at app.py:151. Two means that differ by less than 0.005 can round to the same value. The script then draws a zero difference in green, whereas the model's unrounded difference can be positive and its bar red.
- The regular-expression semantics of `str.contains` are not modelled. The script calls it with pandas' default `regex=True`, so a term such as `a.c` also matches "abc", and a term that is not a valid pattern (for example `(`) makes the script raise an error. The model does a literal substring search. One consequence concerns patterns that match the empty string, such as `x*`, `a?`, `^`, `$` or `|`. With such a term, in the script an empty cell (a missing `text` or `fulltext` after `fillna("")`) matches, and a post with both texts missing lands in the "with" half. `Search.EmptyContainsNothing` and `Search.NullPostNeverMatches` state that a row with no text matches no term. That holds for the literal search modelled here, not for those patterns.
- Full Unicode case-insensitive matching is not modelled. `Search.Lower` folds only ASCII capitals and the Latin-1 capitals À–Þ (except ×). That covers German umlauts. The script's case-insensitive match also pairs characters one by one, but across the whole of Unicode, so some pairs it matches and `Lower` does not: ẞ with ß, Ÿ with ÿ, and the Greek, Cyrillic and other non-Latin-1 capitals with their lower-case letters.
- Float NaN arithmetic is modelled only through `Option`: a missing value or a NaN is `None`, and NaN propagates through subtraction. A mean over a subset where a metric is missing in every row is `None`, which is where pandas gives NaN.
