/**
 Ranking keywords by recent growth: each keyword's mean volume over the
 last three months is compared with its mean over the three months before
 them, and the five keywords with the largest percentage growth are kept.

 Volumes and averages are exact reals. The one place the program produces
 NaN, the mean of an empty window, is an explicit branch.
 */
module GrowthRanker {
  import opened SeriesStore
  import opened PandasSlice
  import opened Ranking

  /** The total of a window's volumes. */
  function Sum(xs: seq<real>): real
  {
    if xs == [] then 0.0 else xs[0] + Sum(xs[1..])
  }

  /** A window of zeros sums to zero. */
  lemma {:induction false} SumOfZeros(xs: seq<real>)
    requires forall i :: 0 <= i < |xs| ==> xs[i] == 0.0
    ensures Sum(xs) == 0.0
  {
    if xs != [] {
      SumOfZeros(xs[1..]);
    }
  }

  /** The arithmetic mean of a non-empty window. */
  function Mean(xs: seq<real>): (m: real)
    requires |xs| > 0
  {
    Sum(xs) / (|xs| as real)
  }

  /** The mean times the window length gives back the window's total. Kept
      apart from `Mean`'s contract so that the product stays out of proofs
      that only move means around. */
  lemma MeanTimesLength(xs: seq<real>)
    requires |xs| > 0
    ensures Mean(xs) * (|xs| as real) == Sum(xs)
  {
  }

  /** The recent window (`tail(3)`): the last three rows, or every row of
      a shorter table. */
  function RecentWindow(rows: seq<Row>): (w: seq<Row>)
    ensures |w| == if |rows| < 3 then |rows| else 3
    ensures w == rows[|rows| - |w|..]
  {
    Tail(rows, 3)
  }

  /** The previous window (`iloc[-6:-3]`): the three rows before the last
      three; in a table of four or five rows only the rows before the last
      three, and nothing in a table of three rows or fewer. */
  function PreviousWindow(rows: seq<Row>): (w: seq<Row>)
    ensures w == [] <==> |rows| <= 3
    ensures |rows| >= 6 ==> w == rows[|rows| - 6..|rows| - 3]
    ensures 3 < |rows| < 6 ==> w == rows[..|rows| - 3]
  {
    ILoc(rows, -6, -3)
  }

  /** The two windows are adjacent and disjoint and are both counted back
      from the latest row: together they are the trailing block of at most
      six rows, the recent one last. With at least six rows each holds
      exactly three; with three rows or fewer the previous window is empty. */
  lemma WindowsAdjacent(rows: seq<Row>)
    ensures var start := if |rows| < 6 then 0 else |rows| - 6;
      PreviousWindow(rows) + RecentWindow(rows) == rows[start..]
    ensures |rows| >= 6 ==>
      && RecentWindow(rows) == rows[|rows| - 3..]
      && PreviousWindow(rows) == rows[|rows| - 6..|rows| - 3]
    ensures PreviousWindow(rows) == [] <==> |rows| <= 3
    ensures |RecentWindow(rows)| == if |rows| < 3 then |rows| else 3
  {
    var n := |rows|;
    if n <= 3 {
      assert PreviousWindow(rows) == [];
    } else if n < 6 {
      assert PreviousWindow(rows) == rows[..n - 3];
      assert rows[..n - 3] + rows[n - 3..] == rows[0..];
    } else {
      assert rows[n - 6..n - 3] + rows[n - 3..] == rows[n - 6..];
    }
  }

  /** The growth policy of one keyword: the percentage change from the
      previous average to the recent one when the previous average is
      positive, and exactly 0 otherwise, so that no division by zero (and no
      infinity or NaN) ever arises. */
  function Growth(recentAvg: real, previousAvg: real): (g: real)
    ensures previousAvg <= 0.0 ==> g == 0.0
    ensures previousAvg > 0.0 ==> (g > 0.0 <==> recentAvg > previousAvg)
    ensures previousAvg > 0.0 ==> (g < 0.0 <==> recentAvg < previousAvg)
    ensures previousAvg > 0.0 && recentAvg >= 0.0 ==> g >= -100.0
  {
    if previousAvg > 0.0 then
      var g := (recentAvg - previousAvg) / previousAvg * 100.0;
      assert g * previousAvg == (recentAvg - previousAvg) * 100.0;
      assert (g + 100.0) * previousAvg == recentAvg * 100.0;
      g
    else 0.0
  }

  /** A positive previous average: the growth is the change in percent of
      the previous average. */
  lemma GrowthIsPercentChange(recentAvg: real, previousAvg: real)
    requires previousAvg > 0.0
    ensures Growth(recentAvg, previousAvg) * previousAvg == (recentAvg - previousAvg) * 100.0
  {
  }

  /** The growth between two windows of volumes. When the previous window
      is empty its mean is NaN, which fails the `> 0` test, so the growth is 0.
      A previous window whose total is not positive has a mean that is not
      positive (or NaN), so its growth is 0 as well; otherwise the growth
      is positive exactly when the recent mean exceeds the previous one. */
  function WindowGrowth(recent: seq<real>, previous: seq<real>): (g: real)
    ensures Sum(previous) <= 0.0 ==> g == 0.0
    ensures recent != [] && Sum(previous) > 0.0 ==>
      |previous| > 0 && (g > 0.0 <==> Mean(recent) > Mean(previous))
  {
    if recent == [] || previous == [] then 0.0
    else
      MeanTimesLength(previous);
      Growth(Mean(recent), Mean(previous))
  }

  /** The growth of keyword column `j`: its recent window against its
      previous window. A table of three rows or fewer has no previous
      window, so every keyword's growth is 0. */
  function KeywordGrowth(t: Table, j: nat): (g: real)
    requires Rectangular(t) && j < |t.keywords|
    ensures |t.rows| <= 3 ==> g == 0.0
  {
    WindowGrowth(ColumnValues(RecentWindow(t.rows), j), ColumnValues(PreviousWindow(t.rows), j))
  }

  /** With at least six rows, column `j` of the recent window is the
      column's last three volumes. */
  lemma RecentColumn(t: Table, j: nat)
    requires Rectangular(t) && j < |t.keywords| && |t.rows| >= 6
    ensures var n := |t.rows|;
      ColumnValues(RecentWindow(t.rows), j) == ColumnValues(t.rows, j)[n - 3..]
  {
    var n := |t.rows|;
    WindowsAdjacent(t.rows);
    ColumnValuesSlice(t.rows, j, n - 3, n);
  }

  /** With at least six rows, column `j` of the previous window is the
      three volumes before the last three. */
  lemma PreviousColumn(t: Table, j: nat)
    requires Rectangular(t) && j < |t.keywords| && |t.rows| >= 6
    ensures var n := |t.rows|;
      ColumnValues(PreviousWindow(t.rows), j) == ColumnValues(t.rows, j)[n - 6..n - 3]
  {
    var n := |t.rows|;
    WindowsAdjacent(t.rows);
    ColumnValuesSlice(t.rows, j, n - 6, n - 3);
  }

  /** With four or five rows, column `j` of the recent window is the
      column's last three volumes. */
  lemma ShortRecentColumn(t: Table, j: nat)
    requires Rectangular(t) && j < |t.keywords| && 3 < |t.rows| < 6
    ensures var n := |t.rows|;
      ColumnValues(RecentWindow(t.rows), j) == ColumnValues(t.rows, j)[n - 3..]
  {
    var n := |t.rows|;
    assert RecentWindow(t.rows) == t.rows[n - 3..n];
    ColumnValuesSlice(t.rows, j, n - 3, n);
  }

  /** With four or five rows, column `j` of the previous window is every
      volume before the last three. */
  lemma ShortPreviousColumn(t: Table, j: nat)
    requires Rectangular(t) && j < |t.keywords| && 3 < |t.rows| < 6
    ensures var n := |t.rows|;
      ColumnValues(PreviousWindow(t.rows), j) == ColumnValues(t.rows, j)[..n - 3]
  {
    var n := |t.rows|;
    assert PreviousWindow(t.rows) == t.rows[0..n - 3];
    ColumnValuesSlice(t.rows, j, 0, n - 3);
  }

  /** With at least six months of history, a keyword's growth compares the
      mean of its last three volumes with the mean of the three before them;
      with four or five months the previous window is every month before the
      last three; with three months or fewer every keyword's growth is 0. */
  lemma KeywordGrowthWindows(t: Table, j: nat)
    requires Rectangular(t) && j < |t.keywords|
    ensures var n := |t.rows|; var vs := ColumnValues(t.rows, j);
      n >= 6 ==> KeywordGrowth(t, j) == Growth(Mean(vs[n - 3..]), Mean(vs[n - 6..n - 3]))
    ensures var n := |t.rows|; var vs := ColumnValues(t.rows, j);
      3 < n < 6 ==> KeywordGrowth(t, j) == Growth(Mean(vs[n - 3..]), Mean(vs[..n - 3]))
    ensures |t.rows| <= 3 ==> KeywordGrowth(t, j) == 0.0
  {
    var n := |t.rows|;
    if n >= 6 {
      RecentColumn(t, j);
      PreviousColumn(t, j);
    } else if n > 3 {
      ShortRecentColumn(t, j);
      ShortPreviousColumn(t, j);
    } else {
      WindowsAdjacent(t.rows);
      assert ColumnValues(PreviousWindow(t.rows), j) == [];
    }
  }

  /** `growth_rates`: one entry per keyword column, in column order, holding
      that keyword's growth. */
  function GrowthRates(t: Table): (rs: seq<Scored>)
    requires Rectangular(t)
    ensures Keywords(rs) == t.keywords
  {
    seq(|t.keywords|, j requires 0 <= j < |t.keywords| => Scored(t.keywords[j], KeywordGrowth(t, j)))
  }

  /** Every keyword column gets exactly one growth entry: the entries'
      keys are distinct because the column names are. */
  lemma GrowthRatesDistinct(t: Table)
    requires WellFormed(t)
    ensures DistinctKeys(GrowthRates(t))
  {
    DistinctKeysOfNames(GrowthRates(t));
  }

  /** Looking a column's name up in the growth table returns that column's
      growth. */
  lemma GrowthRatesLookup(t: Table)
    requires WellFormed(t)
    ensures forall j :: 0 <= j < |t.keywords| ==>
      t.keywords[j] in Keywords(GrowthRates(t)) && RateOf(GrowthRates(t), t.keywords[j]) == KeywordGrowth(t, j)
  {
    var rs := GrowthRates(t);
    GrowthRatesDistinct(t);
    forall j | 0 <= j < |t.keywords|
      ensures t.keywords[j] in Keywords(rs) && RateOf(rs, t.keywords[j]) == KeywordGrowth(t, j)
    {
      assert rs[j] == Scored(t.keywords[j], KeywordGrowth(t, j));
      RateOfMember(rs, rs[j]);
    }
  }

  /** `top_keywords` for a table: at most five distinct keyword columns, in
      non-increasing growth, every column when there are five or fewer, and
      no column left out growing faster than a selected one. */
  function RankKeywords(t: Table): (ks: seq<string>)
    requires WellFormed(t)
    ensures |ks| == if |t.keywords| < TopCount then |t.keywords| else TopCount
    ensures forall i, j :: 0 <= i < j < |ks| ==> ks[i] != ks[j]
    ensures forall k :: k in ks ==> k in t.keywords
    ensures |t.keywords| <= TopCount ==> forall k :: k in t.keywords ==> k in ks
    ensures forall i, j :: 0 <= i < j < |ks| ==>
      RateOf(GrowthRates(t), ks[i]) >= RateOf(GrowthRates(t), ks[j])
    ensures forall k, i :: k in t.keywords && k !in ks && 0 <= i < |ks| ==>
      RateOf(GrowthRates(t), k) <= RateOf(GrowthRates(t), ks[i])
  {
    GrowthRatesDistinct(t);
    TopKeywords(GrowthRates(t))
  }

  /** The growth stored under a column's name is that column's growth. */
  lemma GrowthOfName(t: Table, k: string)
    requires WellFormed(t) && k in t.keywords
    ensures k in Keywords(GrowthRates(t))
    ensures RateOf(GrowthRates(t), k) == KeywordGrowth(t, IndexOf(t.keywords, k))
  {
    GrowthRatesLookup(t);
    var j := IndexOf(t.keywords, k);
    assert t.keywords[j] == k;
  }

  /** Read against the table itself, the ranking is in non-increasing
      growth: the `i`-th ranked column grows at least as fast as the `j`-th. */
  lemma RankedInOrder(t: Table, i: nat, j: nat)
    requires WellFormed(t)
    ensures var ks := RankKeywords(t);
      i < j < |ks| ==>
        && ks[i] in t.keywords && ks[j] in t.keywords
        && KeywordGrowth(t, IndexOf(t.keywords, ks[i])) >= KeywordGrowth(t, IndexOf(t.keywords, ks[j]))
  {
    var ks := RankKeywords(t);
    if i < j < |ks| {
      assert ks[i] in ks && ks[j] in ks;
      GrowthOfName(t, ks[i]);
      GrowthOfName(t, ks[j]);
    }
  }

  /** Read against the table itself, no column left out of the ranking
      grows faster than a ranked one. */
  lemma UnrankedNotFaster(t: Table, k: string, i: nat)
    requires WellFormed(t) && k in t.keywords
    ensures var ks := RankKeywords(t);
      k !in ks && i < |ks| ==>
        && ks[i] in t.keywords
        && KeywordGrowth(t, IndexOf(t.keywords, k)) <= KeywordGrowth(t, IndexOf(t.keywords, ks[i]))
  {
    var ks := RankKeywords(t);
    if k !in ks && i < |ks| {
      assert ks[i] in ks;
      GrowthOfName(t, k);
      GrowthOfName(t, ks[i]);
    }
  }

  /** A keyword whose last three months average 150 and whose three months
      before them average 100 has grown by exactly 50 percent. */
  lemma GrowthFiftyPercent(t: Table, j: nat)
    requires Rectangular(t) && j < |t.keywords| && |t.rows| >= 6
    requires var vs := ColumnValues(t.rows, j); var n := |t.rows|;
      Mean(vs[n - 3..]) == 150.0 && Mean(vs[n - 6..n - 3]) == 100.0
    ensures KeywordGrowth(t, j) == 50.0
  {
    KeywordGrowthWindows(t, j);
    assert Growth(150.0, 100.0) == 50.0;
  }

  /** A keyword with no volume over the three months before the last three
      has growth exactly 0, whatever its recent volume. */
  lemma GrowthFromZeroIsZero(t: Table, j: nat)
    requires Rectangular(t) && j < |t.keywords| && |t.rows| >= 6
    requires forall i :: |t.rows| - 6 <= i < |t.rows| - 3 ==> t.rows[i].volumes[j] == 0.0
    ensures KeywordGrowth(t, j) == 0.0
  {
    var n := |t.rows|;
    var vs := ColumnValues(t.rows, j);
    var previous := vs[n - 6..n - 3];
    forall i | 0 <= i < |previous|
      ensures previous[i] == 0.0
    {
      assert previous[i] == vs[n - 6 + i];
      assert n - 6 <= n - 6 + i < n - 3;
    }
    SumOfZeros(previous);
    PreviousColumn(t, j);
  }
}
