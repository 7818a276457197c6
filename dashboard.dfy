/**
 * What the dashboard computes for one search term: the counts and share at
 * the top (app.py:35, 54-58), the per-day series of the time tab
 * (app.py:72-82), the means, differences and colours of the metrics tab
 * (app.py:117-151) and the 100-row table of the data tab (app.py:181-186),
 * each only when the script's guards let it be computed.
 */
module Dashboard {
  import opened Wrappers
  import opened Posts
  import opened Indexing
  import opened Search
  import opened Daily
  import opened Metrics

  // ---------------------------------------------------------------------
  // Counts and share
  // ---------------------------------------------------------------------

  /** `perc`: the percentage of posts that match, 0 for an empty table. */
  function MatchedShare(df: seq<Post>, term: string): (r: real)
    ensures 0.0 <= r <= 100.0
    ensures |df| == 0 ==> r == 0.0
    ensures |df| > 0 ==> r == |WithTerm(df, term)| as real / |df| as real * 100.0
  {
    PartitionComplete(df, term);
    if |df| > 0 then
      RatioAtMostOne(|WithTerm(df, term)| as real, |df| as real);
      |WithTerm(df, term)| as real / |df| as real * 100.0
    else 0.0
  }

  /** The matched share and the share of the "without" half add up to 100 on a non-empty table. */
  lemma SharesComplement(df: seq<Post>, term: string)
    requires |df| > 0
    ensures MatchedShare(df, term) == 100.0 - |WithoutTerm(df, term)| as real / |df| as real * 100.0
  {
    PartitionComplete(df, term);
    ComplementPercent(|WithTerm(df, term)| as real, |WithoutTerm(df, term)| as real, |df| as real);
  }

  /** Two parts of a positive whole have percentages adding up to 100. */
  lemma ComplementPercent(a: real, b: real, n: real)
    requires n > 0.0 && a + b == n
    ensures a / n * 100.0 == 100.0 - b / n * 100.0
  {
    assert a / n == (n - b) / n == n / n - b / n;
    assert n / n == 1.0;
  }

  /** The empty term gives share 0. */
  lemma EmptyTermShare(df: seq<Post>)
    ensures MatchedShare(df, []) == 0.0
  {
    EmptyTermPartition(df);
  }

  /** The figures at the top of the page and in the sidebar. */
  datatype Summary = Summary(total: nat, matched: nat, unmatched: nat, share: real)

  /** `len(df)`, `len(filtered_df_with_term)`, `len(filtered_df_without_term)` and `perc`. */
  function SummaryCounts(df: seq<Post>, term: string): (r: Summary)
    ensures r.total == |df|
    ensures r.matched + r.unmatched == r.total
    ensures 0.0 <= r.share <= 100.0
    ensures r.total == 0 ==> r.share == 0.0
    ensures r.total > 0 ==> r.share == r.matched as real / r.total as real * 100.0
    ensures r.matched == |WithTerm(df, term)| && r.unmatched == |WithoutTerm(df, term)|
    ensures r.share == MatchedShare(df, term)
  {
    PartitionComplete(df, term);
    Summary(|df|, |WithTerm(df, term)|, |WithoutTerm(df, term)|, MatchedShare(df, term))
  }

  // ---------------------------------------------------------------------
  // The data tab
  // ---------------------------------------------------------------------

  /** The number of rows the data tab shows. */
  const ViewRows: nat := 100

  /** The three choices of the data tab's radio button. */
  datatype ViewChoice = All | OnlyWithTerm | OnlyWithoutTerm

  /** `head(n)`: the first `n` rows, or all of them when there are fewer. */
  function Head<T>(s: seq<T>, n: nat): (r: seq<T>)
    ensures |r| == if |s| < n then |s| else n
    ensures r <= s
  {
    if |s| < n then s else s[..n]
  }

  /** The table shown for a choice: the first 100 rows of the whole table or of one half. */
  function DataView(df: seq<Post>, term: string, choice: ViewChoice): (r: seq<Post>)
    ensures |r| <= ViewRows
  {
    match choice
    case All => Head(df, ViewRows)
    case OnlyWithTerm => Head(WithTerm(df, term), ViewRows)
    case OnlyWithoutTerm => Head(WithoutTerm(df, term), ViewRows)
  }

  /**
   * The view has the first min(100, n) rows of the chosen table of n rows,
   * all from the table: the table's first rows for "Alle", and otherwise
   * the first rows of the chosen half, all of which match (or all of which
   * do not).
   */
  lemma DataViewMeaning(df: seq<Post>, term: string, choice: ViewChoice)
    ensures |DataView(df, term, choice)| <= ViewRows
    ensures var h := match choice
        case All => df
        case OnlyWithTerm => WithTerm(df, term)
        case OnlyWithoutTerm => WithoutTerm(df, term);
      |DataView(df, term, choice)| == if |h| < ViewRows then |h| else ViewRows
    ensures choice == All ==> DataView(df, term, choice) <= df
    ensures choice == OnlyWithTerm ==> DataView(df, term, choice) <= WithTerm(df, term)
    ensures choice == OnlyWithoutTerm ==> DataView(df, term, choice) <= WithoutTerm(df, term)
    ensures forall i :: 0 <= i < |DataView(df, term, choice)| ==>
      DataView(df, term, choice)[i] in df &&
      (choice == OnlyWithTerm ==> Matches(DataView(df, term, choice)[i], term)) &&
      (choice == OnlyWithoutTerm ==> !Matches(DataView(df, term, choice)[i], term))
  {
    var v := DataView(df, term, choice);
    forall i | 0 <= i < |v|
      ensures v[i] in df
      ensures choice == OnlyWithTerm ==> Matches(v[i], term)
      ensures choice == OnlyWithoutTerm ==> !Matches(v[i], term)
    {
      match choice
      case All =>
        assert v[i] == df[i];
      case OnlyWithTerm =>
        assert v[i] == WithTerm(df, term)[i];
        WithTermMembership(df, term, v[i]);
      case OnlyWithoutTerm =>
        assert v[i] == WithoutTerm(df, term)[i];
        WithoutTermMembership(df, term, v[i]);
    }
  }

  // ---------------------------------------------------------------------
  // Everything the page shows for one term
  // ---------------------------------------------------------------------

  /**
   * The computed content of the page. A `None` field is a panel that shows
   * an information message instead of data.
   */
  datatype Report = Report(
    summary: Summary,
    perDay: Option<map<int, real>>,
    meansWith: Option<map<Metric, Option<real>>>,
    meansWithout: Option<map<Metric, Option<real>>>,
    differences: Option<map<Metric, Option<real>>>,
    colours: Option<seq<Colour>>)

  /** The whole page for table `df` and search term `term`, with the script's guards. */
  function Analyze(df: seq<Post>, term: string): (r: Report)
    ensures r.perDay.Some? || r.differences.Some? ==> term != []
  {
    var w, wo := WithTerm(df, term), WithoutTerm(df, term);
    var perDay := if term != [] && |w| > 0 then Some(PercentagePerDay(df, w)) else None;
    var meansWith := if |w| > 0 then Some(MeanMetrics(w)) else None;
    var meansWithout := if |wo| > 0 then Some(MeanMetrics(wo)) else None;
    var differences :=
      if term != [] && |w| > 0 && |wo| > 0 then Some(Differences(MeanMetrics(w), MeanMetrics(wo))) else None;
    var colours := if differences.Some? then Some(BarColours(differences.value)) else None;
    Report(SummaryCounts(df, term), perDay, meansWith, meansWithout, differences, colours)
  }

  /** Which panels show data: the time series needs a term and a match, each mean table its own half, the differences both halves. */
  lemma AnalyzeGuards(df: seq<Post>, term: string)
    ensures Analyze(df, term).perDay.Some? <==> term != [] && |WithTerm(df, term)| > 0
    ensures Analyze(df, term).meansWith.Some? <==> |WithTerm(df, term)| > 0
    ensures Analyze(df, term).meansWithout.Some? <==> |WithoutTerm(df, term)| > 0
    ensures Analyze(df, term).differences.Some? <==>
      term != [] && |WithTerm(df, term)| > 0 && |WithoutTerm(df, term)| > 0
    ensures Analyze(df, term).colours.Some? <==> Analyze(df, term).differences.Some?
    ensures Analyze(df, term).summary == SummaryCounts(df, term)
    ensures Analyze(df, term).perDay.Some? ==> Analyze(df, term).perDay.value == PercentagePerDay(df, WithTerm(df, term))
    ensures Analyze(df, term).meansWith.Some? ==> Analyze(df, term).meansWith.value == MeanMetrics(WithTerm(df, term))
    ensures Analyze(df, term).meansWithout.Some? ==> Analyze(df, term).meansWithout.value == MeanMetrics(WithoutTerm(df, term))
  {
  }

  /**
   * The term test in front of the differences panel never decides
   * anything: with the empty term the "with" half is already empty.
   */
  lemma DifferencesNeedOnlyBothHalves(df: seq<Post>, term: string)
    ensures Analyze(df, term).differences.Some? <==>
      Analyze(df, term).meansWith.Some? && Analyze(df, term).meansWithout.Some?
  {
    if term == [] {
      EmptyTermPartition(df);
    }
  }

  /**
   * When the differences panel shows data, it holds the "with" means minus
   * the "without" means and their bar colours; `ColourOfDifference` gives
   * each metric's value and colour.
   */
  lemma AnalyzeDifferences(df: seq<Post>, term: string)
    ensures var r := Analyze(df, term);
      var diffs := Differences(MeanMetrics(WithTerm(df, term)), MeanMetrics(WithoutTerm(df, term)));
      r.differences.Some? ==> r.differences.value == diffs && r.colours == Some(BarColours(diffs))
  {
  }

  /** When the time series shows data, it has one value per day of the table, each within [0, 100]. */
  lemma AnalyzePerDay(df: seq<Post>, term: string, d: int)
    ensures Analyze(df, term).perDay.Some? ==> (d in Analyze(df, term).perDay.value <==> d in DateColumn(df))
    ensures Analyze(df, term).perDay.Some? && d in Analyze(df, term).perDay.value ==>
      0.0 <= Analyze(df, term).perDay.value[d] <= 100.0 &&
      Analyze(df, term).perDay.value[d] == CountOn(WithTerm(df, term), d) as real / CountOn(df, d) as real * 100.0
  {
    PercentagePerDayDomain(df, term, d);
    if d in DateColumn(df) {
      PercentageOnDay(df, term, d);
    }
  }

  /** A post with the given date and texts and no metric values. */
  function TextPost(date: int, text: Option<string>, fulltext: Option<string>): Post {
    Post(date, text, fulltext, None, None, None, None, None, None, None, None, None)
  }

  /**
   * Three posts on day 1, two of them containing "test" (once only in the
   * fulltext, once in upper case), and one post on day 2 that contains it.
   */
  function ExampleTable(): seq<Post> {
    [TextPost(1, Some("a test"), None), TextPost(1, None, Some("Test run")),
     TextPost(1, Some("other"), None), TextPost(2, Some("test"), None)]
  }

  /** The search mask of the example table for "test". */
  lemma ExampleMask()
    ensures Mask(ExampleTable(), "test") == [true, true, false, true]
  {
    var df := ExampleTable();
    ExampleCells();
    MaskAt(df, "test", 0);
    MaskAt(df, "test", 1);
    MaskAt(df, "test", 2);
    MaskAt(df, "test", 3);
  }

  /** The cell test on each text cell of the example table. */
  lemma ExampleCells()
    ensures CellMatches(Some("a test"), "test") && !CellMatches(None, "test")
    ensures CellMatches(Some("Test run"), "test")
    ensures !CellMatches(Some("other"), "test") && CellMatches(Some("test"), "test")
  {
    ExampleFolds();
    ExampleScans();
  }

  /** Folding the example's strings. */
  lemma ExampleFolds()
    ensures LowerStr("test") == "test" && LowerStr("a test") == "a test"
    ensures LowerStr("Test run") == "test run" && LowerStr("other") == "other" && LowerStr("") == ""
  {
    assert LowerStr("test") == "test";
    assert LowerStr("a test") == "a test";
    assert LowerStr("Test run") == "test run";
    assert LowerStr("other") == "other";
  }

  /** Scanning the example's folded strings for "test". */
  lemma ExampleScans()
    ensures Contains("a test", "test") && Contains("test run", "test") && Contains("test", "test")
    ensures !Contains("other", "test") && !Contains("", "test")
  {
    assert Contains("a test", "test") by {
      assert "a test"[1..] == " test";
      assert " test"[1..] == "test";
    }
    assert Contains("test run", "test");
    assert !Contains("other", "test") by {
      assert "other"[1..] == "ther" && "ther"[1..] == "her";
      assert "ther"[1] != "test"[1];
      assert "other"[0] != "test"[0];
    }
  }


  /** Boolean indexing of four elements with the mask of the example. */
  lemma SelectFirstSecondFourth<T>(a: T, b: T, c: T, d: T)
    ensures Select([a, b, c, d], [true, true, false, true]) == [a, b, d]
  {
    assert [a, b, c, d][..3] == [a, b, c] && [true, true, false, true][..3] == [true, true, false];
    assert [a, b, c][..2] == [a, b] && [true, true, false][..2] == [true, true];
    assert [a, b][..1] == [a] && [true, true][..1] == [true];
    assert [a][..0] == [] && [true][..0] == [];
    assert Select([a], [true]) == [a];
    assert Select([a, b], [true, true]) == [a, b];
    assert Select([a, b, c], [true, true, false]) == [a, b];
  }

  /** The "with" half of the example table for "test": every post but the third. */
  lemma ExampleWithTerm()
    ensures var df := ExampleTable(); WithTerm(df, "test") == [df[0], df[1], df[3]]
  {
    var df := ExampleTable();
    ExampleMask();
    assert df == [df[0], df[1], df[2], df[3]];
    SelectFirstSecondFourth(df[0], df[1], df[2], df[3]);
  }

  /** The date columns of the example table and of its "with" half. */
  lemma ExampleDates()
    ensures DateColumn(ExampleTable()) == [1, 1, 1, 2]
    ensures DateColumn(WithTerm(ExampleTable(), "test")) == [1, 1, 2]
  {
    var df := ExampleTable();
    ExampleWithTerm();
    assert DateColumn([df[0], df[1], df[3]]) == [1, 1, 2];
  }

  /** Day 1 of the example gets 200/3 percent, day 2 gets 100 percent. */
  lemma PerDayExample(df: seq<Post>)
    requires df == ExampleTable()
    ensures PercentagePerDay(df, WithTerm(df, "test")) == map[1 := 200.0 / 3.0, 2 := 100.0]
  {
    ExampleDates();
    ExampleRatios(df, WithTerm(df, "test"));
    ExampleFilled();
  }

  /** The aligned ratios of the example's date columns. */
  lemma ExampleRatios(df: seq<Post>, w: seq<Post>)
    requires DateColumn(df) == [1, 1, 1, 2] && DateColumn(w) == [1, 1, 2]
    ensures DividePercent(ValueCounts(DateColumn(w)), ValueCounts(DateColumn(df)))
         == map[1 := Some(200.0 / 3.0), 2 := Some(100.0)]
  {
    ExampleTableCounts();
    ExampleMatchCounts();
    ExamplePercentages();
  }

  /** Filling leaves the example's ratios, which are all present, unchanged. */
  lemma ExampleFilled()
    ensures FillNa(map[1 := Some(200.0 / 3.0), 2 := Some(100.0)], 0.0) == map[1 := 200.0 / 3.0, 2 := 100.0]
  {
    assert FillNa(map[1 := Some(200.0 / 3.0), 2 := Some(100.0)], 0.0).Keys == {1, 2};
  }

  /** Day histograms of one, two and three posts on day 1. */
  lemma OneOnDay1()
    ensures ValueCounts([1]) == map[1 := 1]
  {
    assert [1][..0] == [];
  }

  lemma TwoOnDay1()
    ensures ValueCounts([1, 1]) == map[1 := 2]
  {
    OneOnDay1();
    assert [1, 1][..1] == [1];
  }

  lemma ThreeOnDay1()
    ensures ValueCounts([1, 1, 1]) == map[1 := 3]
  {
    TwoOnDay1();
    assert [1, 1, 1][..2] == [1, 1];
  }

  /** The example table has 3 posts on day 1 and 1 on day 2. */
  lemma ExampleTableCounts()
    ensures ValueCounts([1, 1, 1, 2]) == map[1 := 3, 2 := 1]
  {
    ThreeOnDay1();
    assert [1, 1, 1, 2][..3] == [1, 1, 1];
  }

  /** The example's matches are 2 posts on day 1 and 1 on day 2. */
  lemma ExampleMatchCounts()
    ensures ValueCounts([1, 1, 2]) == map[1 := 2, 2 := 1]
  {
    TwoOnDay1();
    assert [1, 1, 2][..2] == [1, 1];
  }

  /** 2 of 3 is 200/3 percent, 1 of 1 is 100 percent. */
  lemma ExamplePercentages()
    ensures DividePercent(map[1 := 2, 2 := 1], map[1 := 3, 2 := 1]) == map[1 := Some(200.0 / 3.0), 2 := Some(100.0)]
  {
  }
}
