/**
 What the dashboard shows for one selection: the selected keyword's observed
 series (read back from the long form, as the forecasting step does), the
 forecast rows, and one comparison series per top-ranked keyword, all cut to
 the display window that ends at the latest forecast timestamp.

 The forecast itself comes from an external model fit and is a parameter
 here; only its `ds`, `yhat` and `trend` columns are used.
 */
module Dashboard {
  import opened SeriesStore
  import opened GrowthRanker
  import opened DisplayWindow

  /** One row of the model's output: a month, the prediction and the trend. */
  datatype ForecastRow = ForecastRow(ds: int, yhat: real, trend: real)

  /** One line of the comparison chart. */
  datatype Series = Series(keyword: string, points: seq<Point>)

  /** Everything drawn for one selection. */
  datatype View = View(observed: seq<Point>, forecast: seq<ForecastRow>, comparison: seq<Series>)

  /** The month an observed point falls in. */
  function PointStamp(p: Point): int { p.ds }

  /** The month a forecast row falls in. */
  function ForecastStamp(f: ForecastRow): int { f.ds }

  /** A keyword's series as read back from the long form, by filtering the
      triples on the keyword. */
  function KeywordSeries(t: Table, keyword: string): (ps: seq<Point>)
    requires WellFormed(t)
    ensures keyword in t.keywords ==> ps == Column(t.rows, IndexOf(t.keywords, keyword))
    ensures keyword !in t.keywords ==> ps == []
  {
    SelectMeltIsColumn(t, keyword);
    SelectKeyword(Melt(t), keyword)
  }

  /** One comparison line per keyword, each cut to the window. */
  function CompareSeries(t: Table, keywords: seq<string>, cutoff: Stamp): (cs: seq<Series>)
    requires WellFormed(t)
    ensures |cs| == |keywords|
    ensures forall i :: 0 <= i < |cs| ==> cs[i].keyword == keywords[i]
    ensures forall i :: 0 <= i < |cs| ==>
      cs[i].points == KeepSince(KeywordSeries(t, keywords[i]), PointStamp, cutoff)
  {
    if keywords == [] then []
    else
      [Series(keywords[0], KeepSince(KeywordSeries(t, keywords[0]), PointStamp, cutoff))]
        + CompareSeries(t, keywords[1..], cutoff)
  }

  /** The window every frame is cut to: the latest forecast month minus
      `months`, or NaT when there is no forecast. */
  function WindowCutoff(forecast: seq<ForecastRow>, months: int): (c: Stamp)
    ensures c == NaT <==> forecast == []
    ensures c.At? ==> exists f :: f in forecast && c.month == f.ds - months
    ensures c.At? ==> forall f :: f in forecast ==> f.ds - months <= c.month
  {
    LatestForecast(forecast);
    Cutoff(Latest(forecast, ForecastStamp), months)
  }

  /** The latest forecast month is the month of some forecast row, and no
      forecast row is later. */
  lemma LatestForecast(forecast: seq<ForecastRow>)
    ensures var latest := Latest(forecast, ForecastStamp);
      latest.At? ==>
        && (exists f :: f in forecast && f.ds == latest.month)
        && (forall f :: f in forecast ==> f.ds <= latest.month)
  {
    var latest := Latest(forecast, ForecastStamp);
    if latest.At? {
      var k :| 0 <= k < |forecast| && ForecastStamp(forecast[k]) == latest.month;
      assert forecast[k] in forecast;
      forall f | f in forecast
        ensures f.ds <= latest.month
      {
        var i :| 0 <= i < |forecast| && forecast[i] == f;
        assert ForecastStamp(forecast[i]) <= latest.month;
      }
    }
  }

  /** The dashboard for keyword `selected` and a window of `months` months,
      given the forecast rows the model produced for that keyword. */
  function Render(t: Table, selected: string, months: int, forecast: seq<ForecastRow>): (v: View)
    requires WellFormed(t)
    ensures forall f :: f in v.forecast <==>
      f in forecast && forall g :: g in forecast ==> f.ds >= g.ds - months
    ensures selected in t.keywords ==> forall p :: p in v.observed <==>
      p in Column(t.rows, IndexOf(t.keywords, selected)) &&
      forecast != [] && forall g :: g in forecast ==> p.ds >= g.ds - months
    ensures selected !in t.keywords ==> v.observed == []
    ensures IsSubsequence(v.forecast, forecast)
    ensures selected in t.keywords ==>
      IsSubsequence(v.observed, Column(t.rows, IndexOf(t.keywords, selected)))
    ensures |v.comparison| == |RankKeywords(t)|
    ensures forall i :: 0 <= i < |v.comparison| ==>
      && v.comparison[i].keyword == RankKeywords(t)[i]
      && IsSubsequence(v.comparison[i].points, Column(t.rows, IndexOf(t.keywords, RankKeywords(t)[i])))
    ensures months >= 0 && forecast != [] ==> v.forecast != []
  {
    var cutoff := WindowCutoff(forecast, months);
    var ranked := RankKeywords(t);
    ForecastWindow(forecast, months);
    ObservedWindow(t, selected, forecast, months);
    ComparisonWindows(t, ranked, cutoff);
    View(KeepSince(KeywordSeries(t, selected), PointStamp, cutoff),
         KeepSince(forecast, ForecastStamp, cutoff),
         CompareSeries(t, ranked, cutoff))
  }

  /** Each comparison line of the dashboard holds exactly the points of its
      keyword's column no more than `months` months before every forecast
      row: the same window as the forecast and the observed series, and
      empty when there is no forecast. */
  lemma ComparisonLinesWindowed(t: Table, selected: string, months: int, forecast: seq<ForecastRow>)
    requires WellFormed(t)
    ensures var v := Render(t, selected, months, forecast);
      forall i, p :: 0 <= i < |v.comparison| ==>
        (p in v.comparison[i].points <==>
           p in Column(t.rows, IndexOf(t.keywords, RankKeywords(t)[i])) &&
           forecast != [] && forall g :: g in forecast ==> p.ds >= g.ds - months)
  {
    var ranked := RankKeywords(t);
    var cutoff := WindowCutoff(forecast, months);
    var lines := CompareSeries(t, ranked, cutoff);
    forall i | 0 <= i < |ranked|
      ensures forall p :: p in lines[i].points <==>
        p in Column(t.rows, IndexOf(t.keywords, ranked[i])) &&
        forecast != [] && forall g :: g in forecast ==> p.ds >= g.ds - months
    {
      assert ranked[i] in ranked;
      ComparisonLineWindowed(t, ranked[i], months, forecast);
    }
  }

  /** One comparison line: the keyword's column cut to the window. */
  lemma ComparisonLineWindowed(t: Table, keyword: string, months: int, forecast: seq<ForecastRow>)
    requires WellFormed(t) && keyword in t.keywords
    ensures forall p :: p in KeepSince(KeywordSeries(t, keyword), PointStamp, WindowCutoff(forecast, months)) <==>
      p in Column(t.rows, IndexOf(t.keywords, keyword)) &&
      forecast != [] && forall g :: g in forecast ==> p.ds >= g.ds - months
  {
    WindowMembership(KeywordSeries(t, keyword), PointStamp, forecast, months);
  }

  /** The window is exactly the rows no more than `months` months before
      the latest forecast row; with no forecast rows it is empty. */
  lemma WindowMembership<T>(s: seq<T>, stamp: T -> int, forecast: seq<ForecastRow>, months: int)
    ensures forall x :: x in KeepSince(s, stamp, WindowCutoff(forecast, months)) <==>
      x in s && forecast != [] && forall g :: g in forecast ==> stamp(x) >= g.ds - months
  {
    LatestForecast(forecast);
  }

  /** The observed window of a known keyword holds exactly the points of
      its column no more than `months` months before every forecast row, in
      the column's order; an unknown keyword shows nothing. */
  lemma ObservedWindow(t: Table, selected: string, forecast: seq<ForecastRow>, months: int)
    requires WellFormed(t)
    ensures var w := KeepSince(KeywordSeries(t, selected), PointStamp, WindowCutoff(forecast, months));
      && (selected in t.keywords ==>
           && (forall p :: p in w <==>
                 p in Column(t.rows, IndexOf(t.keywords, selected)) &&
                 forecast != [] && forall g :: g in forecast ==> p.ds >= g.ds - months)
           && IsSubsequence(w, Column(t.rows, IndexOf(t.keywords, selected))))
      && (selected !in t.keywords ==> w == [])
  {
    var ps := KeywordSeries(t, selected);
    WindowMembership(ps, PointStamp, forecast, months);
    KeepSinceExact(ps, PointStamp, WindowCutoff(forecast, months));
  }

  /** The forecast window holds exactly the forecast rows no more than
      `months` months before the latest one, in order, and is never empty
      when there is a forecast and the window length is not negative. */
  lemma ForecastWindow(forecast: seq<ForecastRow>, months: int)
    ensures var w := KeepSince(forecast, ForecastStamp, WindowCutoff(forecast, months));
      && (forall f :: f in w <==> f in forecast && forall g :: g in forecast ==> f.ds >= g.ds - months)
      && IsSubsequence(w, forecast)
      && (months >= 0 && forecast != [] ==> w != [])
  {
    var cutoff := WindowCutoff(forecast, months);
    WindowMembership(forecast, ForecastStamp, forecast, months);
    KeepSinceExact(forecast, ForecastStamp, cutoff);
    if months >= 0 && forecast != [] {
      var latest := Latest(forecast, ForecastStamp);
      var k :| 0 <= k < |forecast| && ForecastStamp(forecast[k]) == latest.month;
      assert forecast[k] in KeepSince(forecast, ForecastStamp, cutoff);
    }
  }

  /** Each comparison line is an in-order selection of its keyword's column. */
  lemma ComparisonWindows(t: Table, keywords: seq<string>, cutoff: Stamp)
    requires WellFormed(t)
    requires forall k :: k in keywords ==> k in t.keywords
    ensures forall i :: 0 <= i < |keywords| ==>
      IsSubsequence(KeepSince(KeywordSeries(t, keywords[i]), PointStamp, cutoff),
                    Column(t.rows, IndexOf(t.keywords, keywords[i])))
  {
    forall i | 0 <= i < |keywords|
      ensures IsSubsequence(KeepSince(KeywordSeries(t, keywords[i]), PointStamp, cutoff),
                            Column(t.rows, IndexOf(t.keywords, keywords[i])))
    {
      assert keywords[i] in keywords;
      KeepSinceExact(KeywordSeries(t, keywords[i]), PointStamp, cutoff);
    }
  }

  /** On a table in time order the observed window is the tail of the
      keyword's series: its most recent months, with every earlier month
      before the cutoff. */
  lemma ObservedWindowIsRecent(t: Table, keyword: string, cutoff: int)
    requires WellFormed(t) && Chronological(t) && keyword in t.keywords
    ensures var ps := KeywordSeries(t, keyword);
      var w := KeepSince(ps, PointStamp, At(cutoff));
      && w == ps[|ps| - |w|..]
      && forall i :: 0 <= i < |ps| - |w| ==> ps[i].ds < cutoff
  {
    var ps := KeywordSeries(t, keyword);
    assert Ascending(ps, PointStamp);
    KeepSinceSuffix(ps, PointStamp, cutoff);
  }
}
