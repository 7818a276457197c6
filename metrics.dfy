/**
 * The metrics tab (app.py:119-121, 131-133, 143-151): the mean of every
 * metric column over one half of the table, skipping missing cells, the
 * per-metric difference of the two halves and the colour of each bar.
 */
module Metrics {
  import opened Wrappers
  import opened Posts

  /** `s[k]`: the cells of metric column `k`, row by row. */
  function Column(s: seq<Post>, k: Metric): (r: seq<Option<nat>>)
    ensures |r| == |s|
    ensures forall i :: 0 <= i < |s| ==> r[i] == s[i].Get(k)
  {
    seq(|s|, i requires 0 <= i < |s| => s[i].Get(k))
  }

  /** `dropna()`: the present values of a column, in row order. */
  function DropNa(col: seq<Option<nat>>): (r: seq<nat>)
    ensures |r| <= |col|
  {
    if |col| == 0 then []
    else (if col[0].Some? then [col[0].value] else []) + DropNa(col[1..])
  }

  /** `dropna()` keeps exactly the values that are present. */
  lemma {:induction false} DropNaMembers(col: seq<Option<nat>>)
    ensures forall x :: x in DropNa(col) <==> Some(x) in col
  {
    if |col| > 0 {
      DropNaMembers(col[1..]);
      assert col == [col[0]] + col[1..];
    }
  }

  /** The sum of a list of values. */
  function Sum(xs: seq<nat>): nat {
    if |xs| == 0 then 0 else xs[0] + Sum(xs[1..])
  }

  /** A sum over a list of at most one leading value. */
  lemma SumCons(head: seq<nat>, tail: seq<nat>)
    requires |head| <= 1
    ensures Sum(head + tail) == Sum(head) + Sum(tail)
  {
    if |head| == 1 {
      assert (head + tail)[1..] == tail;
    } else {
      assert head + tail == tail;
    }
  }

  /** The average of a list of values; none when the list is empty. */
  function Average(xs: seq<nat>): Option<real> {
    if |xs| == 0 then None else Some(Sum(xs) as real / |xs| as real)
  }

  /**
   * `Series.mean()` with pandas' default `skipna=True`: the average of the
   * present values, or NaN (`None`) when the column has none.
   */
  function Mean(col: seq<Option<nat>>): (r: Option<real>)
    ensures r.None? <==> forall i :: 0 <= i < |col| ==> col[i].None?
  {
    var xs := DropNa(col);
    assert |xs| == 0 <==> forall i :: 0 <= i < |col| ==> col[i].None? by {
      DropNaMembers(col);
      if |xs| > 0 {
        assert xs[0] in xs;
      }
      forall i | 0 <= i < |col| && col[i].Some? ensures |xs| > 0 {
        assert Some(col[i].value) in col;
        assert col[i].value in xs;
      }
    }
    Average(xs)
  }

  // ---------------------------------------------------------------------
  // What the mean is
  // ---------------------------------------------------------------------

  /** `fillna(0).sum()`: the sum of a column with missing cells adding nothing. */
  function PresentSum(col: seq<Option<nat>>): nat {
    if |col| == 0 then 0 else col[0].GetOr(0) + PresentSum(col[1..])
  }

  /** `count()`: the number of present cells of a column. */
  function PresentCount(col: seq<Option<nat>>): nat {
    if |col| == 0 then 0 else (if col[0].Some? then 1 else 0) + PresentCount(col[1..])
  }

  /** Dropping the missing cells keeps exactly the present ones: as many, with the same total. */
  lemma {:induction false} DropNaCounts(col: seq<Option<nat>>)
    ensures |DropNa(col)| == PresentCount(col)
    ensures Sum(DropNa(col)) == PresentSum(col)
  {
    if |col| > 0 {
      DropNaCounts(col[1..]);
      SumCons(if col[0].Some? then [col[0].value] else [], DropNa(col[1..]));
    }
  }

  /**
   * The mean is the sum of the present cells over their number; missing
   * cells count in neither, and a column without present cells has no mean.
   */
  lemma MeanIsSumOverCount(col: seq<Option<nat>>)
    ensures PresentCount(col) == 0 ==> Mean(col) == None
    ensures PresentCount(col) > 0 ==> Mean(col) == Some(PresentSum(col) as real / PresentCount(col) as real)
  {
    DropNaCounts(col);
  }

  /** Dropping missing cells distributes over concatenation. */
  lemma {:induction false} DropNaAppend(a: seq<Option<nat>>, b: seq<Option<nat>>)
    ensures DropNa(a + b) == DropNa(a) + DropNa(b)
  {
    if |a| > 0 {
      assert (a + b)[1..] == a[1..] + b;
      DropNaAppend(a[1..], b);
    } else {
      assert a + b == b;
    }
  }

  /** A missing cell anywhere in a column leaves its mean unchanged. */
  lemma MeanSkipsMissing(a: seq<Option<nat>>, b: seq<Option<nat>>)
    ensures Mean(a + [None] + b) == Mean(a + b)
  {
    assert DropNa(a + [None] + b) == DropNa(a + b) by {
      assert a + [None] + b == a + ([None] + b);
      DropNaAppend(a, [None] + b);
      DropNaAppend([None], b);
      DropNaAppend(a, b);
    }
  }

  /** Bounds on the values give bounds on their sum. */
  lemma {:induction false} SumBounds(xs: seq<nat>, lo: nat, hi: nat)
    requires forall i :: 0 <= i < |xs| ==> lo <= xs[i] <= hi
    ensures lo * |xs| <= Sum(xs) <= hi * |xs|
  {
    if |xs| > 0 {
      SumBounds(xs[1..], lo, hi);
      assert lo * |xs| == lo * |xs[1..]| + lo;
      assert hi * |xs| == hi * |xs[1..]| + hi;
    }
  }

  /** Bounds on the present cells are bounds on the values kept by `DropNa`. */
  lemma {:induction false} DropNaBounds(col: seq<Option<nat>>, lo: nat, hi: nat)
    requires forall i :: 0 <= i < |col| && col[i].Some? ==> lo <= col[i].value <= hi
    ensures forall i :: 0 <= i < |DropNa(col)| ==> lo <= DropNa(col)[i] <= hi
  {
    if |col| > 0 {
      DropNaBounds(col[1..], lo, hi);
      assert DropNa(col) == (if col[0].Some? then [col[0].value] else []) + DropNa(col[1..]);
    }
  }

  /** The average lies between bounds that hold for every value. */
  lemma AverageBounds(xs: seq<nat>, lo: nat, hi: nat)
    requires forall i :: 0 <= i < |xs| ==> lo <= xs[i] <= hi
    requires |xs| > 0
    ensures Average(xs).Some? && lo as real <= Average(xs).value <= hi as real
  {
    SumBounds(xs, lo, hi);
    ScaledBounds(Sum(xs), |xs|, lo, hi);
  }

  /** The mean lies between bounds that hold for every present cell. */
  lemma MeanBounds(col: seq<Option<nat>>, lo: nat, hi: nat)
    requires forall i :: 0 <= i < |col| && col[i].Some? ==> lo <= col[i].value <= hi
    requires Mean(col).Some?
    ensures lo as real <= Mean(col).value <= hi as real
  {
    DropNaBounds(col, lo, hi);
    AverageBounds(DropNa(col), lo, hi);
  }

  /** Integer bounds `lo * n <= s <= hi * n` bound the real quotient `s / n`. */
  lemma ScaledBounds(s: nat, n: nat, lo: nat, hi: nat)
    requires n > 0 && lo * n <= s <= hi * n
    ensures lo as real <= s as real / n as real <= hi as real
  {
    assert (lo * n) as real == lo as real * n as real;
    assert (hi * n) as real == hi as real * n as real;
    DivisionBounds(s as real, n as real, lo as real, hi as real);
  }

  /** `lo * n <= s <= hi * n` with `n > 0` gives `lo <= s / n <= hi`. */
  lemma DivisionBounds(s: real, n: real, lo: real, hi: real)
    requires n > 0.0 && lo * n <= s <= hi * n
    ensures lo <= s / n <= hi
  {
    assert s / n - lo == (s - lo * n) / n;
    assert hi - s / n == (hi * n - s) / n;
  }

  /** With `like` missing in one post and 10, 20 in two others, the mean is 15, not 10 as zero-filling would give. */
  lemma MeanExample()
    ensures Mean([None, Some(10), Some(20)]) == Some(15.0)
    ensures Mean([Some(0), Some(10), Some(20)]) == Some(10.0)
  {
    ExampleDropNa();
    ExampleSums();
  }

  /** The present values of the two example columns. */
  lemma ExampleDropNa()
    ensures DropNa([None, Some(10), Some(20)]) == [10, 20]
    ensures DropNa([Some(0), Some(10), Some(20)]) == [0, 10, 20]
  {
    var tail := [Some(10), Some(20)];
    assert DropNa(tail) == [10, 20] by {
      assert tail[1..] == [Some(20)];
      assert [Some(20)][1..] == [];
    }
    assert [None, Some(10), Some(20)][1..] == tail;
    assert [Some(0), Some(10), Some(20)][1..] == tail;
  }

  /** The sums of the example's present values. */
  lemma ExampleSums()
    ensures Sum([10, 20]) == 30 && Sum([0, 10, 20]) == 30
  {
    assert [0, 10, 20][1..] == [10, 20];
    assert [10, 20][1..] == [20];
    assert [20][1..] == [];
  }

  // ---------------------------------------------------------------------
  // Per-subset summaries
  // ---------------------------------------------------------------------

  /** `subset[all_metrics_columns].mean()`: one mean per metric column. */
  function MeanMetrics(subset: seq<Post>): (r: map<Metric, Option<real>>)
    ensures forall k: Metric :: k in r
  {
    AllMetricsColumnsExact();
    map k | k in AllMetricsColumns :: Mean(Column(subset, k))
  }

  /**
   * A metric's mean over a subset exists exactly when some post of the
   * subset has that metric, and is then the sum of the present values
   * over their number.
   */
  lemma MeanMetricsMeaning(subset: seq<Post>, k: Metric)
    ensures MeanMetrics(subset)[k].None? <==> forall i :: 0 <= i < |subset| ==> subset[i].Get(k).None?
    ensures PresentCount(Column(subset, k)) > 0 ==>
      MeanMetrics(subset)[k] == Some(PresentSum(Column(subset, k)) as real / PresentCount(Column(subset, k)) as real)
  {
    var col := Column(subset, k);
    MeanIsSumOverCount(col);
    assert forall i :: 0 <= i < |subset| ==> col[i] == subset[i].Get(k);
  }

  // ---------------------------------------------------------------------
  // Differences and their colours
  // ---------------------------------------------------------------------

  /** An entry of an aligned series; a key absent on one side reads as NaN. */
  function Lookup(series: map<Metric, Option<real>>, k: Metric): (r: Option<real>)
    ensures r.Some? ==> k in series
  {
    if k in series then series[k] else None
  }

  /** Subtraction where NaN on either side gives NaN. */
  function Minus(a: Option<real>, b: Option<real>): (r: Option<real>)
    ensures r.Some? <==> a.Some? && b.Some?
  {
    if a.Some? && b.Some? then Some(a.value - b.value) else None
  }

  /** `with - without` on two series aligned on their metric index. */
  function Differences(w: map<Metric, Option<real>>, wo: map<Metric, Option<real>>): (r: map<Metric, Option<real>>)
    ensures r.Keys == w.Keys + wo.Keys
  {
    map k | k in w.Keys + wo.Keys :: Minus(Lookup(w, k), Lookup(wo, k))
  }

  /** Each difference is the "with" mean minus the "without" mean, and NaN when either is missing. */
  lemma DifferencesMeaning(w: map<Metric, Option<real>>, wo: map<Metric, Option<real>>, k: Metric)
    requires k in w && k in wo
    ensures k in Differences(w, wo)
    ensures w[k].Some? && wo[k].Some? ==> Differences(w, wo)[k] == Some(w[k].value - wo[k].value)
    ensures w[k].None? || wo[k].None? ==> Differences(w, wo)[k] == None
  {
  }

  /** Swapping the halves negates every difference. */
  lemma DifferencesAntisymmetric(w: map<Metric, Option<real>>, wo: map<Metric, Option<real>>, k: Metric)
    requires k in w.Keys + wo.Keys
    ensures k in Differences(wo, w)
    ensures Differences(w, wo)[k].Some? <==> Differences(wo, w)[k].Some?
    ensures Differences(w, wo)[k].Some? ==> Differences(w, wo)[k].value == -Differences(wo, w)[k].value
  {
  }

  /** The two bar colours of the chart. */
  datatype Colour = Red | Green

  /** `"red" if x > 0 else "green"`; a NaN difference is not greater than 0. */
  function BarColour(x: Option<real>): (r: Colour)
    ensures r == Red ==> x.Some?
  {
    if x.Some? && x.value > 0.0 then Red else Green
  }

  /** The colours of the bars, one per metric in column order. */
  function BarColours(diffs: map<Metric, Option<real>>): (r: seq<Colour>)
    ensures |r| == |AllMetricsColumns|
    ensures forall i :: 0 <= i < |r| ==>
      (r[i] == Red <==> Lookup(diffs, AllMetricsColumns[i]).Some? && Lookup(diffs, AllMetricsColumns[i]).value > 0.0)
  {
    seq(|AllMetricsColumns|, i requires 0 <= i < |AllMetricsColumns| => BarColour(Lookup(diffs, AllMetricsColumns[i])))
  }

  /** The i-th bar of two full mean tables: its difference, NaN-aware, and its colour. */
  lemma ColourOfDifference(w: map<Metric, Option<real>>, wo: map<Metric, Option<real>>, i: int)
    requires 0 <= i < |AllMetricsColumns|
    requires forall k: Metric :: k in w && k in wo
    ensures var k := AllMetricsColumns[i];
      var diffs := Differences(w, wo);
      k in diffs &&
      (w[k].Some? && wo[k].Some? ==> diffs[k] == Some(w[k].value - wo[k].value)) &&
      (w[k].None? || wo[k].None? ==> diffs[k] == None) &&
      (BarColours(diffs)[i] == Red <==> diffs[k].Some? && diffs[k].value > 0.0)
  {
    DifferencesMeaning(w, wo, AllMetricsColumns[i]);
  }

  /** Swapping the halves turns a red bar green, and a green bar with a non-zero difference red. */
  lemma SwappedColours(w: map<Metric, Option<real>>, wo: map<Metric, Option<real>>, i: int)
    requires 0 <= i < |AllMetricsColumns|
    requires forall k: Metric :: k in w && k in wo
    ensures BarColours(Differences(w, wo))[i] == Red ==> BarColours(Differences(wo, w))[i] == Green
    ensures var k := AllMetricsColumns[i];
      w[k].Some? && wo[k].Some? && w[k].value != wo[k].value ==>
        BarColours(Differences(w, wo))[i] != BarColours(Differences(wo, w))[i]
  {
    DifferencesAntisymmetric(w, wo, AllMetricsColumns[i]);
  }
}
