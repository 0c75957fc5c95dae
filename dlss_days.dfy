/** dlss.py: the full weekday metrics with a rescaled DLSS, plus the
    rescaled DLSS of each client's Saturdays and of its Sundays. */
module DlssDays {
  import opened Wrappers
  import opened Stats
  import opened Metrics
  import opened Periods
  import opened Ranking
  import opened DlssOnly

  /** `dlss_norm = (dlss + 1) / 2 if dlss is not None else None`. */
  function NormaliseOptional(d: Option<real>): (r: Option<real>)
    ensures r.None? <==> d.None?
  {
    match d
    case None => None
    case Some(v) => Some(NormaliseDlss(v))
  }

  /** One entry of `weekday_results`. */
  function WeekdayEntry(scno: string, m: FlexMetrics): Candidate
  {
    Candidate(scno, m.lf, m.lvi, NormaliseOptional(m.dlss), Some(m.peakRatio))
  }

  /** One entry of `saturday_dlss` or `sunday_dlss`. */
  datatype DayDlss = DayDlss(scno: string, dlss: real)

  function WeekdayContribution(scno: string, rows: seq<Row>, est: Estimators): seq<Candidate>
  {
    if rows == [] then []
    else
      match Calculate(RowsOn(rows, WeekdayDays), est)
      case None => []
      case Some(m) => [WeekdayEntry(scno, m)]
  }

  /** A Saturday or Sunday entry: only for a non-empty frame whose DLSS is
      defined. */
  function DayContribution(scno: string, rows: seq<Row>, days: set<int>, est: Estimators): seq<DayDlss>
  {
    if rows == [] then []
    else
      var sub := RowsOn(rows, days);
      if sub == [] then []
      else
        match Calculate(sub, est).value.dlss
        case None => []
        case Some(d) => [DayDlss(scno, NormaliseDlss(d))]
  }

  function WeekdayResults(clients: seq<string>, readings: string -> seq<Row>, est: Estimators): seq<Candidate>
  {
    if clients == [] then []
    else
      var scno := clients[|clients| - 1];
      WeekdayResults(clients[..|clients| - 1], readings, est) + WeekdayContribution(scno, readings(scno), est)
  }

  function DayResults(clients: seq<string>, readings: string -> seq<Row>, days: set<int>, est: Estimators): seq<DayDlss>
  {
    if clients == [] then []
    else
      var scno := clients[|clients| - 1];
      DayResults(clients[..|clients| - 1], readings, days, est) + DayContribution(scno, readings(scno), days, est)
  }

  lemma WeekdayResultsStep(clients: seq<string>, i: int, readings: string -> seq<Row>, est: Estimators)
    requires 0 <= i < |clients|
    ensures WeekdayResults(clients[..i + 1], readings, est)
      == WeekdayResults(clients[..i], readings, est) + WeekdayContribution(clients[i], readings(clients[i]), est)
  {
    assert clients[..i + 1][..i] == clients[..i];
  }

  lemma DayResultsStep(clients: seq<string>, i: int, readings: string -> seq<Row>, days: set<int>, est: Estimators)
    requires 0 <= i < |clients|
    ensures DayResults(clients[..i + 1], readings, days, est)
      == DayResults(clients[..i], readings, days, est) + DayContribution(clients[i], readings(clients[i]), days, est)
  {
    assert clients[..i + 1][..i] == clients[..i];
  }

  /** `main` up to the writes. `readings(scno)` is what
      `SELECT date, hour, consumption FROM consumption WHERE scno = …`
      returns. */
  method CollectPeriods(clients: seq<string>, readings: string -> seq<Row>, est: Estimators)
    returns (weekdayResults: seq<Candidate>, saturdayDlss: seq<DayDlss>, sundayDlss: seq<DayDlss>)
    ensures weekdayResults == WeekdayResults(Eligible(clients), readings, est)
    ensures saturdayDlss == DayResults(Eligible(clients), readings, SaturdayDays, est)
    ensures sundayDlss == DayResults(Eligible(clients), readings, SundayDays, est)
  {
    var eligible := Eligible(clients);
    weekdayResults, saturdayDlss, sundayDlss := [], [], [];
    for i := 0 to |eligible|
      invariant weekdayResults == WeekdayResults(eligible[..i], readings, est)
      invariant saturdayDlss == DayResults(eligible[..i], readings, SaturdayDays, est)
      invariant sundayDlss == DayResults(eligible[..i], readings, SundayDays, est)
    {
      var scno := eligible[i];
      WeekdayResultsStep(eligible, i, readings, est);
      DayResultsStep(eligible, i, readings, SaturdayDays, est);
      DayResultsStep(eligible, i, readings, SundayDays, est);
      var rows := readings(scno);
      if rows == [] {
        continue;
      }
      var weekday := RowsOn(rows, WeekdayDays);
      var saturday := RowsOn(rows, SaturdayDays);
      var sunday := RowsOn(rows, SundayDays);
      var weekdayFlex := Calculate(weekday, est);
      if weekdayFlex.Some? {
        var m := weekdayFlex.value;
        var dlssNorm := if m.dlss.Some? then Some(NormaliseDlss(m.dlss.value)) else None;
        weekdayResults := weekdayResults + [Candidate(scno, m.lf, m.lvi, dlssNorm, Some(m.peakRatio))];
      }
      if saturday != [] {
        var dlssSat := Calculate(saturday, est).value.dlss;
        if dlssSat.Some? {
          saturdayDlss := saturdayDlss + [DayDlss(scno, NormaliseDlss(dlssSat.value))];
        }
      }
      if sunday != [] {
        var dlssSun := Calculate(sunday, est).value.dlss;
        if dlssSun.Some? {
          sundayDlss := sundayDlss + [DayDlss(scno, NormaliseDlss(dlssSun.value))];
        }
      }
    }
    assert eligible[..|eligible|] == eligible;
  }

  lemma DayContributionMembers(scno: string, rows: seq<Row>, days: set<int>, est: Estimators, e: DayDlss)
    ensures e in DayContribution(scno, rows, days, est) <==>
      var d := Dlss(RowsOn(rows, days), est);
      e.scno == scno && d.Some? && e.dlss == NormaliseDlss(d.value)
  {
    var sub := RowsOn(rows, days);
    if sub == [] {
      assert |Dates(sub)| == 0;
    }
  }

  /** A client has a Saturday (or Sunday) entry exactly when it is in the
      list and the DLSS of its rows on those days is defined; the entry is
      that DLSS rescaled. The emptiness test before the call changes
      nothing, since an empty frame has no DLSS. */
  lemma {:induction false} DayResultsMembers(clients: seq<string>, readings: string -> seq<Row>, days: set<int>, est: Estimators, e: DayDlss)
    ensures e in DayResults(clients, readings, days, est) <==>
      var d := Dlss(RowsOn(readings(e.scno), days), est);
      e.scno in clients && d.Some? && e.dlss == NormaliseDlss(d.value)
  {
    if clients != [] {
      var init := clients[..|clients| - 1];
      var scno := clients[|clients| - 1];
      DayResultsMembers(init, readings, days, est, e);
      DayContributionMembers(scno, readings(scno), days, est, e);
      InInitOrLast(clients, e.scno);
      if readings(scno) == [] {
        assert RowsOn(readings(scno), days) == [];
        assert |Dates(RowsOn(readings(scno), days))| == 0;
      }
    }
  }

  /** The stored Saturday and Sunday values lie in [0, 1] and are exactly
      what combined.py's `calculate_dlss` gives for the same frame. */
  lemma DayEntryAgrees(clients: seq<string>, readings: string -> seq<Row>, days: set<int>, est: Estimators, e: DayDlss)
    requires ValidEstimators(est) && e in DayResults(clients, readings, days, est)
    ensures CalculateDlss(RowsOn(readings(e.scno), days), est) == Some(e.dlss)
    ensures 0.0 <= e.dlss <= 1.0
  {
    DayResultsMembers(clients, readings, days, est, e);
    var sub := RowsOn(readings(e.scno), days);
    CalculateDlssRange(sub, est);
  }

  lemma WeekdayContributionMembers(scno: string, rows: seq<Row>, est: Estimators, c: Candidate)
    ensures c in WeekdayContribution(scno, rows, est) <==>
      var sub := RowsOn(rows, WeekdayDays);
      c.scno == scno && sub != [] && c == WeekdayEntry(scno, Calculate(sub, est).value)
  {
    if rows == [] {
      assert RowsOn(rows, WeekdayDays) == [];
    }
  }

  /** A client has a weekday entry exactly when it is in the list and has
      weekday readings; the entry is the weekday metrics with the DLSS
      rescaled. */
  lemma {:induction false} WeekdayResultsMembers(clients: seq<string>, readings: string -> seq<Row>, est: Estimators, c: Candidate)
    ensures c in WeekdayResults(clients, readings, est) <==>
      var sub := RowsOn(readings(c.scno), WeekdayDays);
      c.scno in clients && sub != [] && c == WeekdayEntry(c.scno, Calculate(sub, est).value)
  {
    if clients != [] {
      var init := clients[..|clients| - 1];
      var scno := clients[|clients| - 1];
      WeekdayResultsMembers(init, readings, est, c);
      WeekdayContributionMembers(scno, readings(scno), est, c);
      InInitOrLast(clients, c.scno);
    }
  }

  /** A weekday entry holds the same LF, LVI and peak ratio as the weekday
      frame's metrics, and the DLSS combined.py stores for it. */
  lemma WeekdayEntryAgrees(clients: seq<string>, readings: string -> seq<Row>, est: Estimators, c: Candidate)
    requires c in WeekdayResults(clients, readings, est)
    ensures var sub := RowsOn(readings(c.scno), WeekdayDays);
      && c.lf == LoadFactor(sub) && c.lvi == Lvi(sub, est) && c.peakRatio == Some(PeakRatio(sub))
      && c.dlss == CalculateDlss(sub, est)
  {
    WeekdayResultsMembers(clients, readings, est, c);
    var sub := RowsOn(readings(c.scno), WeekdayDays);
  }
}
