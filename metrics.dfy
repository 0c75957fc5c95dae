/** `calculate_flexibility` (flexibility_pred.py, weekend_weekday.py and
    dlss.py carry the same body; the latter two add the peak ratio): the
    per-client load metrics computed from the stored hourly readings.
    Readings sharing a (date, hour) are summed first (pandas `groupby(["date",
    "hour"]).sum()`); dates and hours are listed in first-appearance order,
    which does not change any of the order-independent aggregates. */
module Metrics {
  import opened Wrappers
  import opened Stats

  /** One stored reading `(date, hour, consumption)` of a client; dates are
      days counted from 1970-01-01. */
  datatype Row = Row(date: int, hour: int, consumption: real)

  /** The four values `calculate_flexibility` returns; the first three are
      `None` where pandas produces None or NaN. */
  datatype FlexMetrics = FlexMetrics(lf: Option<real>, lvi: Option<real>, dlss: Option<real>, peakRatio: real)

  predicate NonNegative(rows: seq<Row>)
  {
    forall i :: 0 <= i < |rows| ==> rows[i].consumption >= 0.0
  }

  predicate NoDuplicates(xs: seq<int>)
  {
    forall i, j :: 0 <= i < j < |xs| ==> xs[i] != xs[j]
  }

  /** `xs` with later repetitions removed. */
  function Distinct(xs: seq<int>): (r: seq<int>)
    ensures forall x :: x in r <==> x in xs
    ensures NoDuplicates(r)
  {
    if xs == [] then []
    else
      var init := Distinct(xs[..|xs| - 1]);
      assert xs == xs[..|xs| - 1] + [xs[|xs| - 1]];
      if xs[|xs| - 1] in init then init else init + [xs[|xs| - 1]]
  }

  /** The pivot's columns: every date that has a reading. */
  function Dates(rows: seq<Row>): (ds: seq<int>)
    ensures NoDuplicates(ds)
    ensures forall i :: 0 <= i < |rows| ==> rows[i].date in ds
    ensures forall d :: d in ds ==> exists i :: 0 <= i < |rows| && rows[i].date == d
  {
    var all := seq(|rows|, i requires 0 <= i < |rows| => rows[i].date);
    assert forall i :: 0 <= i < |rows| ==> all[i] == rows[i].date;
    Distinct(all)
  }

  /** The pivot's index: every hour that has a reading on any date. */
  function Hours(rows: seq<Row>): (hs: seq<int>)
    ensures NoDuplicates(hs)
    ensures forall i :: 0 <= i < |rows| ==> rows[i].hour in hs
  {
    var all := seq(|rows|, i requires 0 <= i < |rows| => rows[i].hour);
    assert forall i :: 0 <= i < |rows| ==> all[i] == rows[i].hour;
    Distinct(all)
  }

  /** The hours of the readings on date `d`, with repetitions. */
  function HoursOfDate(rows: seq<Row>, d: int): (hs: seq<int>)
    ensures forall i :: 0 <= i < |rows| && rows[i].date == d ==> rows[i].hour in hs
  {
    if rows == [] then []
    else
      var last := rows[|rows| - 1];
      HoursOfDate(rows[..|rows| - 1], d) + (if last.date == d then [last.hour] else [])
  }

  /** The hours of date `d` in `daily_profiles`: those with a reading. */
  function HoursOn(rows: seq<Row>, d: int): (hs: seq<int>)
    ensures NoDuplicates(hs)
    ensures forall i :: 0 <= i < |rows| && rows[i].date == d ==> rows[i].hour in hs
  {
    Distinct(HoursOfDate(rows, d))
  }

  /** One cell of `daily_profiles`: the readings of (d, h) summed; 0 when
      there are none (the pivot's `fillna(0)`). */
  function Cell(rows: seq<Row>, d: int, h: int): real
  {
    if rows == [] then 0.0
    else
      var last := rows[|rows| - 1];
      Cell(rows[..|rows| - 1], d, h) + (if last.date == d && last.hour == h then last.consumption else 0.0)
  }

  /** `daily_totals[d]`: all readings of date `d` summed. */
  function DayTotal(rows: seq<Row>, d: int): real
  {
    if rows == [] then 0.0
    else
      var last := rows[|rows| - 1];
      DayTotal(rows[..|rows| - 1], d) + (if last.date == d then last.consumption else 0.0)
  }

  /** The group of date `d` in `daily_profiles`: one summed value per hour present. */
  function Profile(rows: seq<Row>, d: int): (p: seq<real>)
    ensures |p| == |HoursOn(rows, d)|
    ensures forall i :: 0 <= i < |p| ==> p[i] == Cell(rows, d, HoursOn(rows, d)[i])
  {
    var hs := HoursOn(rows, d);
    seq(|hs|, i requires 0 <= i < |hs| => Cell(rows, d, hs[i]))
  }

  /** One entry of `lf_list`: mean over max of a day's profile, undefined
      when the max is zero. */
  function DayRatio(p: seq<real>): Option<real>
  {
    if |p| > 0 && Max(p) != 0.0 then Some(Mean(p) / Max(p)) else None
  }

  /** Each date's mean-over-max ratio, `None` where its max is zero. */
  function DayRatios(rows: seq<Row>): (rs: seq<Option<real>>)
    ensures |rs| == |Dates(rows)|
    ensures forall j :: 0 <= j < |rs| ==> rs[j] == DayRatio(Profile(rows, Dates(rows)[j]))
  {
    var ds := Dates(rows);
    seq(|ds|, j requires 0 <= j < |ds| => DayRatio(Profile(rows, ds[j])))
  }

  /** `lf_list`. */
  function LoadFactors(rows: seq<Row>): seq<real>
  {
    Present(DayRatios(rows))
  }

  /** LF: the mean of `lf_list`. It is `None` exactly when no date has a
      non-zero maximum, and otherwise lies in (0, 1] for non-negative data. */
  function LoadFactor(rows: seq<Row>): (r: Option<real>)
    ensures r.None? <==> forall j :: 0 <= j < |DayRatios(rows)| ==> DayRatios(rows)[j].None?
    ensures r.Some? && NonNegative(rows) ==> 0.0 < r.value <= 1.0
  {
    var lfs := LoadFactors(rows);
    PresentEmptyIff(DayRatios(rows));
    if lfs == [] then None
    else
      LoadFactorMeanRange(rows);
      Some(Mean(lfs))
  }

  /** `daily_totals`, one per date. */
  function DailyTotals(rows: seq<Row>): (t: seq<real>)
    ensures |t| == |Dates(rows)|
    ensures forall j :: 0 <= j < |t| ==> t[j] == DayTotal(rows, Dates(rows)[j])
  {
    var ds := Dates(rows);
    seq(|ds|, j requires 0 <= j < |ds| => DayTotal(rows, ds[j]))
  }

  /** LVI: standard deviation over mean of the daily totals, `None` with
      fewer than two dates or a zero mean. For non-negative data it is
      non-negative, and zero exactly when every date has the same total. */
  function Lvi(rows: seq<Row>, est: Estimators): (r: Option<real>)
    ensures |Dates(rows)| < 2 ==> r.None?
    ensures r.Some? && ValidEstimators(est) && NonNegative(rows) ==>
      r.value >= 0.0 && (r.value == 0.0 <==> Constant(DailyTotals(rows)))
  {
    var t := DailyTotals(rows);
    if |t| > 1 && Mean(t) != 0.0 then
      LviValueRange(rows, est);
      Some(est.std(t) / Mean(t))
    else None
  }

  /** The pivot column of date `d`: its summed value for every pivot hour. */
  function Column(rows: seq<Row>, d: int): (c: seq<real>)
    ensures |c| == |Hours(rows)|
    ensures forall i :: 0 <= i < |c| ==> c[i] == Cell(rows, d, Hours(rows)[i])
  {
    var hs := Hours(rows);
    seq(|hs|, i requires 0 <= i < |hs| => Cell(rows, d, hs[i]))
  }

  /** The values of pivot row `h`, one per date. */
  function HourRow(rows: seq<Row>, h: int): (v: seq<real>)
    ensures |v| == |Dates(rows)|
    ensures forall j :: 0 <= j < |v| ==> v[j] == Cell(rows, Dates(rows)[j], h)
  {
    var ds := Dates(rows);
    seq(|ds|, j requires 0 <= j < |ds| => Cell(rows, ds[j], h))
  }

  /** `typical_day`: the per-hour mean across the date columns. */
  function Typical(rows: seq<Row>): (t: seq<real>)
    ensures |t| == |Hours(rows)|
    ensures forall i :: 0 <= i < |t| && rows != [] ==> t[i] == Mean(HourRow(rows, Hours(rows)[i]))
  {
    var hs := Hours(rows);
    seq(|hs|, i requires 0 <= i < |hs| =>
      var v := HourRow(rows, hs[i]);
      if |v| > 0 then Mean(v) else 0.0)
  }

  /** Each date column's correlation with the typical day; `None` for NaN. */
  function CorrelationsOf(rows: seq<Row>, est: Estimators): (cs: seq<Option<real>>)
    ensures |cs| == |Dates(rows)|
    ensures forall j :: 0 <= j < |cs| ==> cs[j] == est.corr(Column(rows, Dates(rows)[j]), Typical(rows))
  {
    var ds := Dates(rows);
    var typical := Typical(rows);
    seq(|ds|, j requires 0 <= j < |ds| => est.corr(Column(rows, ds[j]), typical))
  }

  /** DLSS: the mean of the defined correlations; `None` with fewer than
      two date columns or when no correlation is defined. */
  function Dlss(rows: seq<Row>, est: Estimators): (r: Option<real>)
    ensures |Dates(rows)| < 2 ==> r.None?
  {
    if |Dates(rows)| < 2 then None
    else
      var cs := Present(CorrelationsOf(rows, est));
      if cs == [] then None else Some(Mean(cs))
  }

  /** `PEAK_HOURS = range(6, 10) + range(18, 22)`. */
  const PeakHours: set<int> := {6, 7, 8, 9, 18, 19, 20, 21}

  function Total(rows: seq<Row>): real
  {
    if rows == [] then 0.0 else Total(rows[..|rows| - 1]) + rows[|rows| - 1].consumption
  }

  function PeakTotal(rows: seq<Row>): real
  {
    if rows == [] then 0.0
    else
      var last := rows[|rows| - 1];
      PeakTotal(rows[..|rows| - 1]) + (if last.hour in PeakHours then last.consumption else 0.0)
  }

  /** `peak_ratio`: peak-hour consumption over total, 0 unless the total is positive. */
  function PeakRatio(rows: seq<Row>): (r: real)
    ensures Total(rows) <= 0.0 ==> r == 0.0
  {
    var total := Total(rows);
    if total > 0.0 then PeakTotal(rows) / total else 0.0
  }

  /** `calculate_flexibility`: `None` for an empty frame, otherwise the four
      metrics, each computed on its own. */
  function Calculate(rows: seq<Row>, est: Estimators): (r: Option<FlexMetrics>)
    ensures r.None? <==> rows == []
    ensures r.Some? ==> r.value.lf == LoadFactor(rows) && r.value.lvi == Lvi(rows, est)
    ensures r.Some? ==> r.value.dlss == Dlss(rows, est) && r.value.peakRatio == PeakRatio(rows)
  {
    if rows == [] then None
    else Some(FlexMetrics(LoadFactor(rows), Lvi(rows, est), Dlss(rows, est), PeakRatio(rows)))
  }

  predicate AllZero(rows: seq<Row>)
  {
    forall i :: 0 <= i < |rows| ==> rows[i].consumption == 0.0
  }

  lemma {:induction false} CellNonNegative(rows: seq<Row>, d: int, h: int)
    requires NonNegative(rows)
    ensures Cell(rows, d, h) >= 0.0
  {
    if rows != [] {
      CellNonNegative(rows[..|rows| - 1], d, h);
    }
  }

  /** A (date, hour) with no reading has cell 0: the pivot's `fillna(0)`. */
  lemma {:induction false} CellAbsent(rows: seq<Row>, d: int, h: int)
    requires forall i :: 0 <= i < |rows| ==> rows[i].date != d || rows[i].hour != h
    ensures Cell(rows, d, h) == 0.0
  {
    if rows != [] {
      CellAbsent(rows[..|rows| - 1], d, h);
    }
  }

  /** Readings sharing a (date, hour) are summed, wherever they appear. */
  lemma {:induction false} CellAppend(a: seq<Row>, b: seq<Row>, d: int, h: int)
    ensures Cell(a + b, d, h) == Cell(a, d, h) + Cell(b, d, h)
    decreases |b|
  {
    if b == [] {
      assert a + b == a;
    } else {
      assert (a + b)[..|a + b| - 1] == a + b[..|b| - 1];
      CellAppend(a, b[..|b| - 1], d, h);
    }
  }

  /** Every reading is at most the cell it is summed into. */
  lemma {:induction false} ReadingAtMostCell(rows: seq<Row>, k: int)
    requires NonNegative(rows) && 0 <= k < |rows|
    ensures rows[k].consumption <= Cell(rows, rows[k].date, rows[k].hour)
  {
    var init := rows[..|rows| - 1];
    CellNonNegative(init, rows[k].date, rows[k].hour);
    if k < |rows| - 1 {
      ReadingAtMostCell(init, k);
    }
  }

  lemma {:induction false} CellZero(rows: seq<Row>, d: int, h: int)
    requires AllZero(rows)
    ensures Cell(rows, d, h) == 0.0
  {
    if rows != [] {
      CellZero(rows[..|rows| - 1], d, h);
    }
  }

  lemma {:induction false} DayTotalNonNegative(rows: seq<Row>, d: int)
    requires NonNegative(rows)
    ensures DayTotal(rows, d) >= 0.0
  {
    if rows != [] {
      DayTotalNonNegative(rows[..|rows| - 1], d);
    }
  }

  lemma {:induction false} ReadingAtMostDayTotal(rows: seq<Row>, k: int)
    requires NonNegative(rows) && 0 <= k < |rows|
    ensures rows[k].consumption <= DayTotal(rows, rows[k].date)
  {
    var init := rows[..|rows| - 1];
    DayTotalNonNegative(init, rows[k].date);
    if k < |rows| - 1 {
      ReadingAtMostDayTotal(init, k);
    }
  }

  lemma {:induction false} DayTotalZero(rows: seq<Row>, d: int)
    requires AllZero(rows)
    ensures DayTotal(rows, d) == 0.0
  {
    if rows != [] {
      DayTotalZero(rows[..|rows| - 1], d);
    }
  }

  /** Peak-hour consumption is part of the total. */
  lemma {:induction false} PeakWithinTotal(rows: seq<Row>)
    requires NonNegative(rows)
    ensures 0.0 <= PeakTotal(rows) <= Total(rows)
  {
    if rows != [] {
      PeakWithinTotal(rows[..|rows| - 1]);
    }
  }

  /** For non-negative readings the peak ratio lies in [0, 1]. */
  lemma PeakRatioRange(rows: seq<Row>)
    requires NonNegative(rows)
    ensures 0.0 <= PeakRatio(rows) <= 1.0
  {
    PeakWithinTotal(rows);
    if Total(rows) > 0.0 {
      DivAtMost(PeakTotal(rows), Total(rows), 1.0);
      DivZeroIff(PeakTotal(rows), Total(rows));
    }
  }

  /** A profile entry of `lf_list` lies in (0, 1] for non-negative data. */
  lemma DayRatioRange(p: seq<real>)
    requires AllNonNegative(p) && DayRatio(p).Some?
    ensures 0.0 < DayRatio(p).value <= 1.0
  {
    var m := Max(p);
    var k :| 0 <= k < |p| && p[k] == m;
    assert m > 0.0;
    ElementAtMostSum(p, k);
    DivZeroIff(Sum(p), |p| as real);
    MeanWithin(p, 0.0, m);
    DivAtMost(Mean(p), m, 1.0);
    DivZeroIff(Mean(p), m);
  }

  lemma ProfileNonNegative(rows: seq<Row>, d: int)
    requires NonNegative(rows)
    ensures AllNonNegative(Profile(rows, d))
  {
    var p := Profile(rows, d);
    forall i | 0 <= i < |p| ensures p[i] >= 0.0 {
      CellNonNegative(rows, d, HoursOn(rows, d)[i]);
    }
  }

  /** The mean of a non-empty `lf_list` lies in (0, 1] for non-negative data. */
  lemma LoadFactorMeanRange(rows: seq<Row>)
    requires LoadFactors(rows) != []
    ensures NonNegative(rows) ==> 0.0 < Mean(LoadFactors(rows)) <= 1.0
  {
    if NonNegative(rows) {
      var ds := Dates(rows);
      var ratios := DayRatios(rows);
      var lfs := LoadFactors(rows);
      forall i | 0 <= i < |lfs| ensures 0.0 < lfs[i] <= 1.0 {
        assert lfs[i] in Present(ratios);
        var j :| 0 <= j < |ratios| && ratios[j] == Some(lfs[i]);
        ProfileNonNegative(rows, ds[j]);
        DayRatioRange(Profile(rows, ds[j]));
      }
      var lo := Min(lfs);
      MeanWithin(lfs, lo, 1.0);
    }
  }

  /** A date that has a reading has a non-empty profile. */
  lemma HourInProfile(rows: seq<Row>, k: int) returns (i: int)
    requires 0 <= k < |rows|
    ensures 0 <= i < |Profile(rows, rows[k].date)|
    ensures Profile(rows, rows[k].date)[i] == Cell(rows, rows[k].date, rows[k].hour)
  {
    var hs := HoursOn(rows, rows[k].date);
    assert rows[k].hour in hs;
    i :| 0 <= i < |hs| && hs[i] == rows[k].hour;
  }

  /** For non-negative data LF is `None` exactly when every reading is
      zero: only then does every date have a zero maximum. */
  lemma LoadFactorNoneIff(rows: seq<Row>)
    requires NonNegative(rows)
    ensures LoadFactor(rows).None? <==> AllZero(rows)
  {
    PresentEmptyIff(DayRatios(rows));
    if AllZero(rows) {
      AllZeroRatiosUndefined(rows);
    }
    if LoadFactor(rows).None? {
      UndefinedRatiosAllZero(rows);
    }
  }

  lemma AllZeroRatiosUndefined(rows: seq<Row>)
    requires AllZero(rows)
    ensures forall j :: 0 <= j < |DayRatios(rows)| ==> DayRatios(rows)[j].None?
  {
    var ds := Dates(rows);
    forall j | 0 <= j < |ds| ensures DayRatios(rows)[j].None? {
      var p := Profile(rows, ds[j]);
      if |p| > 0 {
        var k :| 0 <= k < |p| && p[k] == Max(p);
        CellZero(rows, ds[j], HoursOn(rows, ds[j])[k]);
      }
    }
  }

  lemma UndefinedRatiosAllZero(rows: seq<Row>)
    requires NonNegative(rows)
    requires forall j :: 0 <= j < |DayRatios(rows)| ==> DayRatios(rows)[j].None?
    ensures AllZero(rows)
  {
    var ds := Dates(rows);
    forall k | 0 <= k < |rows| ensures rows[k].consumption == 0.0 {
      var j :| 0 <= j < |ds| && ds[j] == rows[k].date;
      assert DayRatios(rows)[j].None?;
      ReadingZeroOnZeroMaxDay(rows, k);
    }
  }

  lemma ReadingZeroOnZeroMaxDay(rows: seq<Row>, k: int)
    requires NonNegative(rows) && 0 <= k < |rows|
    requires DayRatio(Profile(rows, rows[k].date)).None?
    ensures rows[k].consumption == 0.0
  {
    var p := Profile(rows, rows[k].date);
    var i := HourInProfile(rows, k);
    ReadingAtMostCell(rows, k);
    assert p[i] <= Max(p);
  }

  lemma DailyTotalsNonNegative(rows: seq<Row>)
    requires NonNegative(rows)
    ensures AllNonNegative(DailyTotals(rows))
  {
    var t := DailyTotals(rows);
    forall j | 0 <= j < |t| ensures t[j] >= 0.0 {
      DayTotalNonNegative(rows, Dates(rows)[j]);
    }
  }

  /** Every daily total is zero exactly when every reading is. */
  lemma DailyTotalsZeroIff(rows: seq<Row>)
    requires NonNegative(rows)
    ensures (forall j :: 0 <= j < |DailyTotals(rows)| ==> DailyTotals(rows)[j] == 0.0) <==> AllZero(rows)
  {
    var t := DailyTotals(rows);
    var ds := Dates(rows);
    if AllZero(rows) {
      forall j | 0 <= j < |t| ensures t[j] == 0.0 {
        DayTotalZero(rows, ds[j]);
      }
    }
    if forall j :: 0 <= j < |t| ==> t[j] == 0.0 {
      forall k | 0 <= k < |rows| ensures rows[k].consumption == 0.0 {
        var j :| 0 <= j < |ds| && ds[j] == rows[k].date;
        ReadingAtMostDayTotal(rows, k);
        assert t[j] == 0.0;
      }
    }
  }

  /** For non-negative data LVI is `None` exactly when there are fewer than
      two dates or every reading is zero. */
  lemma LviNoneIff(rows: seq<Row>, est: Estimators)
    requires NonNegative(rows)
    ensures Lvi(rows, est).None? <==> |Dates(rows)| < 2 || AllZero(rows)
  {
    var t := DailyTotals(rows);
    if |t| > 0 {
      DailyTotalsNonNegative(rows);
      MeanZeroIff(t);
    }
    DailyTotalsZeroIff(rows);
  }

  /** Standard deviation over a non-zero mean of the daily totals is
      non-negative, and zero exactly when every total is the same. */
  lemma LviValueRange(rows: seq<Row>, est: Estimators)
    requires |DailyTotals(rows)| > 1 && Mean(DailyTotals(rows)) != 0.0
    ensures var t := DailyTotals(rows);
      ValidEstimators(est) && NonNegative(rows) ==>
        est.std(t) / Mean(t) >= 0.0 && (est.std(t) / Mean(t) == 0.0 <==> Constant(t))
  {
    var t := DailyTotals(rows);
    if ValidEstimators(est) && NonNegative(rows) {
      DailyTotalsNonNegative(rows);
      MeanZeroIff(t);
      assert est.std(t) >= 0.0 && (est.std(t) == 0.0 <==> Constant(t));
      DivZeroIff(est.std(t), Mean(t));
    }
  }

  /** With at least one reading the pivot has at least one hour. */
  lemma HoursNonEmpty(rows: seq<Row>)
    requires |Dates(rows)| > 0
    ensures rows != [] && |Hours(rows)| > 0
  {
    var d := Dates(rows)[0];
    assert d in Dates(rows);
    assert rows[0].hour in Hours(rows);
  }

  /** DLSS lies in [-1, 1]. */
  lemma DlssRange(rows: seq<Row>, est: Estimators)
    requires ValidEstimators(est) && Dlss(rows, est).Some?
    ensures -1.0 <= Dlss(rows, est).value <= 1.0
  {
    HoursNonEmpty(rows);
    var cs := CorrelationsOf(rows, est);
    var ps := Present(cs);
    forall i | 0 <= i < |ps| ensures -1.0 <= ps[i] <= 1.0 {
      assert ps[i] in ps;
      var j :| 0 <= j < |cs| && cs[j] == Some(ps[i]);
      assert |Column(rows, Dates(rows)[j])| == |Typical(rows)| > 0;
    }
    MeanWithin(ps, -1.0, 1.0);
  }

  /** With two or more dates, DLSS is `None` exactly when the typical day is
      flat or every date's column is flat: only then is no correlation defined. */
  lemma DlssNoneIff(rows: seq<Row>, est: Estimators)
    requires ValidEstimators(est) && |Dates(rows)| >= 2
    ensures Dlss(rows, est).None? <==>
      Constant(Typical(rows)) || forall j :: 0 <= j < |Dates(rows)| ==> Constant(Column(rows, Dates(rows)[j]))
  {
    HoursNonEmpty(rows);
    var cs := CorrelationsOf(rows, est);
    PresentEmptyIff(cs);
    forall j | 0 <= j < |cs|
      ensures cs[j].None? <==> Constant(Column(rows, Dates(rows)[j])) || Constant(Typical(rows))
    {
      assert |Column(rows, Dates(rows)[j])| == |Typical(rows)| > 0;
    }
  }

  /** When every date has the same non-flat hourly shape, the typical day
      is that shape and DLSS is exactly 1. */
  lemma DlssIdenticalDays(rows: seq<Row>, est: Estimators, shape: seq<real>)
    requires ValidEstimators(est) && |Dates(rows)| >= 2
    requires forall j :: 0 <= j < |Dates(rows)| ==> Column(rows, Dates(rows)[j]) == shape
    requires !Constant(shape)
    ensures Dlss(rows, est) == Some(1.0)
  {
    HoursNonEmpty(rows);
    TypicalOfIdenticalDays(rows, shape);
    var cs := CorrelationsOf(rows, est);
    assert forall j :: 0 <= j < |cs| ==> cs[j] == Some(1.0);
    var ps := Present(cs);
    PresentAllDefined(cs);
    forall i | 0 <= i < |ps| ensures ps[i] == 1.0 {
      assert ps[i] in ps;
    }
    MeanOfConstant(ps, 1.0);
  }

  lemma TypicalOfIdenticalDays(rows: seq<Row>, shape: seq<real>)
    requires |Dates(rows)| >= 1
    requires forall j :: 0 <= j < |Dates(rows)| ==> Column(rows, Dates(rows)[j]) == shape
    ensures Typical(rows) == shape
  {
    HoursNonEmpty(rows);
    var ds := Dates(rows);
    var hs := Hours(rows);
    assert |shape| == |Column(rows, ds[0])| == |hs|;
    forall i | 0 <= i < |hs| ensures Typical(rows)[i] == shape[i] {
      var v := HourRow(rows, hs[i]);
      forall j | 0 <= j < |v| ensures v[j] == shape[i] {
        assert Column(rows, ds[j])[i] == Cell(rows, ds[j], hs[i]);
      }
      MeanOfConstant(v, shape[i]);
    }
  }

  /** A single date: neither LVI nor DLSS is defined. */
  lemma SingleDateMetrics(rows: seq<Row>, est: Estimators)
    requires |Dates(rows)| == 1
    ensures Calculate(rows, est).Some?
    ensures Calculate(rows, est).value.lvi.None? && Calculate(rows, est).value.dlss.None?
  {
    HoursNonEmpty(rows);
  }
}
