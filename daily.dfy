/**
 * The time-series tab (app.py:75-82): posts per day in the whole table and
 * in the "with" half, their aligned ratio times 100, and the missing ratios
 * filled with 0.
 */
module Daily {
  import opened Wrappers
  import opened Posts
  import opened Indexing
  import opened Search

  /** `df["date"]`. */
  function DateColumn(s: seq<Post>): (r: seq<int>)
    ensures |r| == |s|
    ensures forall i :: 0 <= i < |s| ==> r[i] == s[i].date
  {
    seq(|s|, i requires 0 <= i < |s| => s[i].date)
  }

  /** The date column of a boolean selection is the boolean selection of the date column. */
  lemma {:induction false} DateColumnOfSelect(s: seq<Post>, mask: seq<bool>)
    requires |mask| == |s|
    ensures DateColumn(Select(s, mask)) == Select(DateColumn(s), mask)
  {
    if |s| > 0 {
      var n := |s| - 1;
      assert DateColumn(s)[..n] == DateColumn(s[..n]);
      DateColumnOfSelect(s[..n], mask[..n]);
      assert DateColumn(Select(s, mask)) == DateColumn(Select(s[..n], mask[..n])) + DateColumn(if mask[n] then [s[n]] else []);
    }
  }

  /** `value_counts()`: each distinct date of `dates` with the number of times it occurs. */
  function ValueCounts(dates: seq<int>): (m: map<int, nat>)
    ensures forall d :: d in m <==> d in dates
    ensures forall d :: d in m ==> m[d] == multiset(dates)[d] && m[d] > 0
  {
    if |dates| == 0 then map[]
    else
      var n := |dates| - 1;
      var m := ValueCounts(dates[..n]);
      assert dates == dates[..n] + [dates[n]];
      m[dates[n] := (if dates[n] in m then m[dates[n]] else 0) + 1]
  }

  /**
   * `(hits / totals) * 100` on two series: the index is the union of both
   * indexes, and a date missing from either side gives NaN (`None`).
   * Every total comes from `ValueCounts`, so it is positive.
   */
  function DividePercent(hits: map<int, nat>, totals: map<int, nat>): (r: map<int, Option<real>>)
    requires forall d :: d in totals ==> totals[d] > 0
    ensures r.Keys == hits.Keys + totals.Keys
  {
    map d | d in hits.Keys + totals.Keys ::
      if d in hits && d in totals then Some(hits[d] as real / totals[d] as real * 100.0) else None
  }

  /** `fillna(v)`: a NaN entry becomes `v`, every other entry keeps its value. */
  function FillNa(series: map<int, Option<real>>, v: real): (r: map<int, real>)
    ensures r.Keys == series.Keys
  {
    map d | d in series :: series[d].GetOr(v)
  }

  /** `percentage_per_day` for the table `df` and its "with" half `withTerm`. */
  function PercentagePerDay(df: seq<Post>, withTerm: seq<Post>): (r: map<int, real>)
    ensures forall d :: d in r <==> d in DateColumn(withTerm) || d in DateColumn(df)
  {
    FillNa(DividePercent(ValueCounts(DateColumn(withTerm)), ValueCounts(DateColumn(df))), 0.0)
  }

  /** Number of posts of `s` on day `d`. */
  function CountOn(s: seq<Post>, d: int): nat {
    multiset(DateColumn(s))[d]
  }

  /** On every day, the "with" half has no more posts than the whole table. */
  lemma HitsAtMostTotal(df: seq<Post>, term: string, d: int)
    ensures CountOn(WithTerm(df, term), d) <= CountOn(df, d)
    ensures CountOn(WithTerm(df, term), d) > 0 ==> d in DateColumn(df)
  {
    var m := Mask(df, term);
    DateColumnOfSelect(df, m);
    SelectSplit(DateColumn(df), m);
  }

  /** The per-day percentage is defined for exactly the days of the whole table. */
  lemma PercentagePerDayDomain(df: seq<Post>, term: string, d: int)
    ensures d in PercentagePerDay(df, WithTerm(df, term)) <==> d in DateColumn(df)
  {
    HitsAtMostTotal(df, term, d);
  }

  /**
   * On each day of the table the percentage is 100 times the share of that
   * day's posts that match, hence 0 on a day without matches and always
   * within [0, 100].
   */
  lemma PercentageOnDay(df: seq<Post>, term: string, d: int)
    requires d in DateColumn(df)
    ensures d in PercentagePerDay(df, WithTerm(df, term))
    ensures CountOn(df, d) > 0
    ensures PercentagePerDay(df, WithTerm(df, term))[d]
         == CountOn(WithTerm(df, term), d) as real / CountOn(df, d) as real * 100.0
    ensures 0.0 <= PercentagePerDay(df, WithTerm(df, term))[d] <= 100.0
    ensures CountOn(WithTerm(df, term), d) == 0 ==> PercentagePerDay(df, WithTerm(df, term))[d] == 0.0
  {
    var w := WithTerm(df, term);
    HitsAtMostTotal(df, term, d);
    var hits, totals := ValueCounts(DateColumn(w)), ValueCounts(DateColumn(df));
    assert CountOf(hits, d) == CountOn(w, d);
    FilledPercent(hits, totals, d);
  }

  /** The filled ratio of one day is 100 times hits over total, 0 when the day has no hits. */
  lemma FilledPercent(hits: map<int, nat>, totals: map<int, nat>, d: int)
    requires forall e :: e in totals ==> totals[e] > 0
    requires d in totals && CountOf(hits, d) <= totals[d]
    ensures d in FillNa(DividePercent(hits, totals), 0.0)
    ensures FillNa(DividePercent(hits, totals), 0.0)[d] == CountOf(hits, d) as real / totals[d] as real * 100.0
    ensures 0.0 <= FillNa(DividePercent(hits, totals), 0.0)[d] <= 100.0
  {
    RatioAtMostOne(CountOf(hits, d) as real, totals[d] as real);
  }

  /** A share of a positive whole lies in [0, 1]. */
  lemma RatioAtMostOne(h: real, t: real)
    requires 0.0 <= h <= t && 0.0 < t
    ensures 0.0 <= h / t <= 1.0
  {
  }

  /** With no matching post at all, every day's percentage is 0. */
  lemma NoMatchesAllZero(df: seq<Post>, term: string)
    requires WithTerm(df, term) == []
    ensures forall d :: d in PercentagePerDay(df, WithTerm(df, term)) ==> PercentagePerDay(df, WithTerm(df, term))[d] == 0.0
  {
    forall d | d in PercentagePerDay(df, WithTerm(df, term))
      ensures PercentagePerDay(df, WithTerm(df, term))[d] == 0.0
    {
      PercentagePerDayDomain(df, term, d);
      PercentageOnDay(df, term, d);
    }
  }

  // ---------------------------------------------------------------------
  // Sum of a day histogram
  // ---------------------------------------------------------------------

  /** The distinct days of a date column, in order of first appearance. */
  function Days(dates: seq<int>): (r: seq<int>)
    ensures forall d :: d in r <==> d in dates
    ensures forall i, j :: 0 <= i < j < |r| ==> r[i] != r[j]
  {
    if |dates| == 0 then []
    else
      var n := |dates| - 1;
      assert dates == dates[..n] + [dates[n]];
      Days(dates[..n]) + (if dates[n] in dates[..n] then [] else [dates[n]])
  }

  /** The count of day `d` in a histogram, 0 when the day is absent. */
  function CountOf(m: map<int, nat>, d: int): nat {
    if d in m then m[d] else 0
  }

  /** The counts of a histogram added up over the days `days`. */
  function SumOver(days: seq<int>, m: map<int, nat>): nat {
    if |days| == 0 then 0 else CountOf(m, days[0]) + SumOver(days[1..], m)
  }

  /** Raising one listed day's count by one raises the sum by one. */
  lemma {:induction false} SumOverBump(days: seq<int>, m: map<int, nat>, x: int)
    requires forall i, j :: 0 <= i < j < |days| ==> days[i] != days[j]
    ensures SumOver(days, m[x := CountOf(m, x) + 1]) == SumOver(days, m) + (if x in days then 1 else 0)
  {
    if |days| > 0 {
      SumOverBump(days[1..], m, x);
      assert x in days <==> x == days[0] || x in days[1..];
    }
  }

  /** An empty histogram sums to 0 over any days. */
  lemma {:induction false} SumOverEmpty(days: seq<int>)
    ensures SumOver(days, map[]) == 0
  {
    if |days| > 0 {
      SumOverEmpty(days[1..]);
    }
  }

  /** Adding up a date column's counts over any duplicate-free list of days that covers it gives the number of rows. */
  lemma {:induction false} CountsSumToLength(dates: seq<int>, days: seq<int>)
    requires forall i, j :: 0 <= i < j < |days| ==> days[i] != days[j]
    requires forall d :: d in dates ==> d in days
    ensures SumOver(days, ValueCounts(dates)) == |dates|
  {
    if |dates| > 0 {
      var n := |dates| - 1;
      var x := dates[n];
      forall d | d in dates[..n] ensures d in days {
        assert d in dates;
      }
      CountsSumToLength(dates[..n], days);
      var m := ValueCounts(dates[..n]);
      assert ValueCounts(dates) == m[x := CountOf(m, x) + 1];
      assert x in days;
      SumOverBump(days, m, x);
    } else {
      SumOverEmpty(days);
    }
  }

  /** The per-day match counts, added up over all days of the table, give the size of the "with" half. */
  lemma HitsSumToMatched(df: seq<Post>, term: string)
    ensures SumOver(Days(DateColumn(df)), ValueCounts(DateColumn(WithTerm(df, term)))) == |WithTerm(df, term)|
  {
    var w := WithTerm(df, term);
    forall d | d in DateColumn(w) ensures d in Days(DateColumn(df)) {
      HitsAtMostTotal(df, term, d);
    }
    CountsSumToLength(DateColumn(w), Days(DateColumn(df)));
  }
}
