/** combined.py: the DLSS of each client's weekday, Saturday and Sunday
    readings, rescaled from [-1, 1] to [0, 1], one row per client. */
module DlssOnly {
  import opened Wrappers
  import opened Stats
  import opened Metrics
  import opened Periods

  /** `(dlss + 1) / 2`: maps [-1, 1] onto [0, 1], and doubling and
      subtracting one undoes it. */
  function NormaliseDlss(d: real): (r: real)
    ensures 2.0 * r - 1.0 == d
    ensures -1.0 <= d <= 1.0 <==> 0.0 <= r <= 1.0
  {
    (d + 1.0) / 2.0
  }

  /** `calculate_dlss`, with its early returns: an empty frame, fewer than
      two date columns, and no defined correlation all give `None`. It
      agrees with the DLSS of `calculate_flexibility`, rescaled. */
  function CalculateDlss(rows: seq<Row>, est: Estimators): (r: Option<real>)
    ensures r.None? <==> Dlss(rows, est).None?
    ensures r.Some? ==> r.value == NormaliseDlss(Dlss(rows, est).value)
  {
    if rows == [] then
      assert |Dates(rows)| == 0;
      None
    else if |Dates(rows)| < 2 then None
    else
      var correlations := Present(CorrelationsOf(rows, est));
      if correlations == [] then None
      else Some(NormaliseDlss(Mean(correlations)))
  }

  /** One tuple of `weekday_dlss`. */
  datatype DlssRow = DlssRow(scno: string, weekday: Option<real>, saturday: Option<real>, sunday: Option<real>)

  function ClientRow(scno: string, rows: seq<Row>, est: Estimators): DlssRow
  {
    DlssRow(scno,
      CalculateDlss(RowsOn(rows, WeekdayDays), est),
      CalculateDlss(RowsOn(rows, SaturdayDays), est),
      CalculateDlss(RowsOn(rows, SundayDays), est))
  }

  /** The rows the main loop collects for `clients` (already filtered):
      one per client that has readings. */
  function Collected(clients: seq<string>, readings: string -> seq<Row>, est: Estimators): seq<DlssRow>
  {
    if clients == [] then []
    else
      var init := Collected(clients[..|clients| - 1], readings, est);
      var scno := clients[|clients| - 1];
      if readings(scno) == [] then init else init + [ClientRow(scno, readings(scno), est)]
  }

  /** `main` up to the `execute_values` call: `readings(scno)` is what
      `SELECT date, hour, consumption FROM consumption WHERE scno = …`
      returns. */
  method CollectDlss(clients: seq<string>, readings: string -> seq<Row>, est: Estimators)
    returns (results: seq<DlssRow>)
    ensures results == Collected(Eligible(clients), readings, est)
  {
    var eligible := Eligible(clients);
    results := [];
    for i := 0 to |eligible|
      invariant results == Collected(eligible[..i], readings, est)
    {
      var scno := eligible[i];
      CollectedStep(eligible, i, readings, est);
      var rows := readings(scno);
      if rows == [] {
        continue;
      }
      var weekday := CalculateDlss(RowsOn(rows, WeekdayDays), est);
      var saturday := CalculateDlss(RowsOn(rows, SaturdayDays), est);
      var sunday := CalculateDlss(RowsOn(rows, SundayDays), est);
      results := results + [DlssRow(scno, weekday, saturday, sunday)];
    }
    assert eligible[..|eligible|] == eligible;
  }

  lemma CollectedStep(clients: seq<string>, i: int, readings: string -> seq<Row>, est: Estimators)
    requires 0 <= i < |clients|
    ensures Collected(clients[..i + 1], readings, est)
      == Collected(clients[..i], readings, est)
        + (if readings(clients[i]) == [] then [] else [ClientRow(clients[i], readings(clients[i]), est)])
  {
    assert clients[..i + 1][..i] == clients[..i];
  }

  /** The rescaling keeps order. */
  lemma NormaliseDlssMonotone(a: real, b: real)
    requires a <= b
    ensures NormaliseDlss(a) <= NormaliseDlss(b)
  {
  }

  /** With well-behaved estimators the stored values lie in [0, 1]. */
  lemma CalculateDlssRange(rows: seq<Row>, est: Estimators)
    requires ValidEstimators(est) && CalculateDlss(rows, est).Some?
    ensures 0.0 <= CalculateDlss(rows, est).value <= 1.0
  {
    DlssRange(rows, est);
  }

  /** A client whose days all repeat one non-flat shape scores exactly 1. */
  lemma IdenticalDaysScoreOne(rows: seq<Row>, est: Estimators, shape: seq<real>)
    requires ValidEstimators(est) && |Dates(rows)| >= 2
    requires forall j :: 0 <= j < |Dates(rows)| ==> Column(rows, Dates(rows)[j]) == shape
    requires !Constant(shape)
    ensures CalculateDlss(rows, est) == Some(1.0)
  {
    DlssIdenticalDays(rows, est, shape);
  }

  /** A listed client has a row exactly when it has readings; its row holds
      the three rescaled DLSS values of its frames. */
  lemma {:induction false} CollectedMembers(clients: seq<string>, readings: string -> seq<Row>, est: Estimators, r: DlssRow)
    ensures r in Collected(clients, readings, est) <==>
      r.scno in clients && readings(r.scno) != [] && r == ClientRow(r.scno, readings(r.scno), est)
  {
    if clients != [] {
      var init := clients[..|clients| - 1];
      CollectedMembers(init, readings, est, r);
      InInitOrLast(clients, r.scno);
    }
  }

  /** The rows come out in client order, one per client with readings. */
  lemma {:induction false} CollectedCount(clients: seq<string>, readings: string -> seq<Row>, est: Estimators)
    ensures |Collected(clients, readings, est)| <= |clients|
    ensures (forall i :: 0 <= i < |clients| ==> readings(clients[i]) != []) ==>
      |Collected(clients, readings, est)| == |clients|
  {
    if clients != [] {
      CollectedCount(clients[..|clients| - 1], readings, est);
    }
  }

  /** An ignored client never gets a row. */
  lemma IgnoredNeverStored(clients: seq<string>, readings: string -> seq<Row>, est: Estimators, i: int)
    requires 0 <= i < |Collected(Eligible(clients), readings, est)|
    ensures Collected(Eligible(clients), readings, est)[i].scno !in IgnoreScnos
  {
    var r := Collected(Eligible(clients), readings, est)[i];
    CollectedMembers(Eligible(clients), readings, est, r);
  }
}
