/** weekend_weekday.py: each client's readings are split into weekday and
    weekend frames, each frame gets the four metrics, and each period is
    ranked on its own with the off-peak penalty. */
module WeekendWeekday {
  import opened Wrappers
  import opened Stats
  import opened Metrics
  import opened Periods
  import opened Ranking

  /** A result dictionary: the metrics of one frame, with its peak ratio. */
  function CandidateOf(scno: string, m: FlexMetrics): Candidate
  {
    Candidate(scno, m.lf, m.lvi, m.dlss, Some(m.peakRatio))
  }

  /** The candidate one period frame contributes, if any. */
  function PeriodCandidate(scno: string, rows: seq<Row>, days: set<int>, est: Estimators): Option<Candidate>
  {
    match Calculate(RowsOn(rows, days), est)
    case None => None
    case Some(m) => Some(CandidateOf(scno, m))
  }

  /** What one client adds to a period's results: nothing without
      readings or without readings in that period. */
  function Contribution(scno: string, rows: seq<Row>, days: set<int>, est: Estimators): seq<Candidate>
  {
    if rows == [] then []
    else
      match PeriodCandidate(scno, rows, days, est)
      case None => []
      case Some(c) => [c]
  }

  /** `weekday_results` (with `WeekdayDays`) or `weekend_results` (with
      `WeekendDays`) for `clients`, already filtered. */
  function PeriodResults(clients: seq<string>, readings: string -> seq<Row>, days: set<int>, est: Estimators): seq<Candidate>
  {
    if clients == [] then []
    else
      var scno := clients[|clients| - 1];
      PeriodResults(clients[..|clients| - 1], readings, days, est) + Contribution(scno, readings(scno), days, est)
  }

  /** `main` up to the writes: the two period rankings. `readings(scno)` is
      what `SELECT date, hour, consumption FROM consumption WHERE scno = …`
      returns. */
  method RankPeriods(clients: seq<string>, readings: string -> seq<Row>, est: Estimators)
    returns (rankedWeekday: seq<Labelled>, rankedWeekend: seq<Labelled>)
    ensures rankedWeekday == RankPeriod(PeriodResults(Eligible(clients), readings, WeekdayDays, est), "Weekday")
    ensures rankedWeekend == RankPeriod(PeriodResults(Eligible(clients), readings, WeekendDays, est), "Weekend")
  {
    var eligible := Eligible(clients);
    var weekdayResults: seq<Candidate> := [];
    var weekendResults: seq<Candidate> := [];
    for i := 0 to |eligible|
      invariant weekdayResults == PeriodResults(eligible[..i], readings, WeekdayDays, est)
      invariant weekendResults == PeriodResults(eligible[..i], readings, WeekendDays, est)
    {
      var scno := eligible[i];
      PeriodResultsStep(eligible, i, readings, WeekdayDays, est);
      PeriodResultsStep(eligible, i, readings, WeekendDays, est);
      var rows := readings(scno);
      if rows == [] {
        continue;
      }
      var weekdayFlex := Calculate(RowsOn(rows, WeekdayDays), est);
      var weekendFlex := Calculate(RowsOn(rows, WeekendDays), est);
      if weekdayFlex.Some? {
        weekdayResults := weekdayResults + [CandidateOf(scno, weekdayFlex.value)];
      }
      if weekendFlex.Some? {
        weekendResults := weekendResults + [CandidateOf(scno, weekendFlex.value)];
      }
    }
    assert eligible[..|eligible|] == eligible;
    rankedWeekday := RankPeriod(weekdayResults, "Weekday");
    rankedWeekend := RankPeriod(weekendResults, "Weekend");
  }

  lemma PeriodResultsStep(clients: seq<string>, i: int, readings: string -> seq<Row>, days: set<int>, est: Estimators)
    requires 0 <= i < |clients|
    ensures PeriodResults(clients[..i + 1], readings, days, est)
      == PeriodResults(clients[..i], readings, days, est) + Contribution(clients[i], readings(clients[i]), days, est)
  {
    assert clients[..i + 1][..i] == clients[..i];
  }

  /** A client contributes to a period exactly when it has readings on one of
      that period's days; its entry holds the metrics of that frame alone. */
  lemma {:induction false} PeriodResultsMembers(clients: seq<string>, readings: string -> seq<Row>, days: set<int>, est: Estimators, c: Candidate)
    ensures c in PeriodResults(clients, readings, days, est) <==>
      && c.scno in clients
      && RowsOn(readings(c.scno), days) != []
      && c == CandidateOf(c.scno, Calculate(RowsOn(readings(c.scno), days), est).value)
  {
    if clients != [] {
      var init := clients[..|clients| - 1];
      var scno := clients[|clients| - 1];
      PeriodResultsMembers(init, readings, days, est, c);
      ContributionMembers(scno, readings(scno), days, est, c);
      InInitOrLast(clients, c.scno);
    }
  }

  lemma ContributionMembers(scno: string, rows: seq<Row>, days: set<int>, est: Estimators, c: Candidate)
    ensures c in Contribution(scno, rows, days, est) <==>
      c.scno == scno && RowsOn(rows, days) != [] && c == CandidateOf(scno, Calculate(RowsOn(rows, days), est).value)
  {
    if rows == [] {
      assert RowsOn(rows, days) == [];
    }
  }

  /** Every period entry carries a peak ratio, so the off-peak rule applies
      to it. */
  lemma PeriodResultsHavePeakRatio(clients: seq<string>, readings: string -> seq<Row>, days: set<int>, est: Estimators, i: int)
    requires 0 <= i < |PeriodResults(clients, readings, days, est)|
    ensures PeriodResults(clients, readings, days, est)[i].peakRatio.Some?
  {
    PeriodResultsMembers(clients, readings, days, est, PeriodResults(clients, readings, days, est)[i]);
  }

  /** Every ranked row names a client that is not ignored and has readings
      in that period, and carries that period's metrics. */
  lemma RankedRowSource(clients: seq<string>, readings: string -> seq<Row>, days: set<int>, est: Estimators, periodLabel: string, i: int)
    requires 0 <= i < |RankPeriod(PeriodResults(Eligible(clients), readings, days, est), periodLabel)|
    ensures var row := RankPeriod(PeriodResults(Eligible(clients), readings, days, est), periodLabel)[i];
      var c := row.ranked.scored.cand;
      && row.period == periodLabel
      && c.scno in clients && c.scno !in IgnoreScnos
      && RowsOn(readings(c.scno), days) != []
      && c == CandidateOf(c.scno, Calculate(RowsOn(readings(c.scno), days), est).value)
  {
    var cands := PeriodResults(Eligible(clients), readings, days, est);
    assert RankClients(cands)[i].scored.cand in cands;
    PeriodResultsMembers(Eligible(clients), readings, days, est, RankClients(cands)[i].scored.cand);
  }

  /** A client with no weekend readings appears only in the weekday ranking
      input, and one with only weekend readings only in the weekend one. */
  lemma WeekdayOnlyClient(clients: seq<string>, readings: string -> seq<Row>, est: Estimators, c: Candidate)
    requires RowsOn(readings(c.scno), WeekendDays) == []
    ensures c !in PeriodResults(clients, readings, WeekendDays, est)
    ensures c in PeriodResults(clients, readings, WeekdayDays, est) <==>
      c.scno in clients && readings(c.scno) != [] && c == CandidateOf(c.scno, Calculate(readings(c.scno), est).value)
  {
    var rows := readings(c.scno);
    PeriodResultsMembers(clients, readings, WeekendDays, est, c);
    PeriodResultsMembers(clients, readings, WeekdayDays, est, c);
    WeekdayWeekendPartition(rows);
    WeekdayFrameIsAll(rows);
  }

  /** Without weekend rows, the weekday frame is the whole frame. */
  lemma {:induction false} WeekdayFrameIsAll(rows: seq<Row>)
    requires RowsOn(rows, WeekendDays) == []
    ensures RowsOn(rows, WeekdayDays) == rows
  {
    if rows != [] {
      var init := rows[..|rows| - 1];
      var last := rows[|rows| - 1];
      assert DayOfWeek(last.date) !in WeekendDays;
      assert RowsOn(init, WeekendDays) == [];
      WeekdayFrameIsAll(init);
      assert rows == init + [last];
    }
  }
}
