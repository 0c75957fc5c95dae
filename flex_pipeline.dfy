/** flexibility_pred.py's `process_client` and `main`: sync each client's
    readings into the store, compute its LF, LVI and DLSS from every stored
    row, and rank the clients. */
module FlexPipeline {
  import opened Wrappers
  import opened Stats
  import opened Fetch
  import opened Metrics
  import opened Store
  import opened Ranking

  /** The result dictionary of `process_client` (the name is not carried):
      flexibility_pred.py computes no peak ratio. */
  function ResultOf(scno: string, m: FlexMetrics): Candidate
  {
    Candidate(scno, m.lf, m.lvi, m.dlss, None)
  }

  /** The readings the sync of `scno` fetches, given the last stored date. */
  function SyncBatch(scno: string, src: Day -> Response, today: Day, last: Option<Day>): seq<Reading>
  {
    var w := SyncWindow(last, LookbackStart(today), today);
    FetchSpec(scno, src, w.0, w.1)
  }

  /** The insert of the fetched batch does not raise. */
  predicate SyncBatchAccepted(scno: string, src: Day -> Response, today: Day, last: Option<Day>)
  {
    PagesConflictFree(SyncBatch(scno, src, today, last))
  }

  /** The table after the sync: `last` is the latest date stored before it,
      and the fetched batch is upserted unless its insert raised. */
  ghost predicate Synced(before: map<Key, real>, after: map<Key, real>, scno: string, src: Day -> Response, today: Day, last: Option<Day>)
  {
    var batch := SyncBatch(scno, src, today, last);
    && IsLastDate(before.Keys, scno, last)
    && after == (if PagesConflictFree(batch) then Upserted(before, batch) else before)
  }

  /** `process_client`. `processedToday` is the freshness check on
      `flexibility_metrics.calculated_at`; `src` answers the consumption API
      for this client; `today` is the current day. A repeated key within one
      insert page makes the insert raise: the error is caught, nothing is
      committed and the client yields no result. */
  method ProcessClient(store: ConsumptionStore, scno: string, src: Day -> Response, today: Day, est: Estimators, processedToday: bool)
    returns (result: Option<Candidate>, ghost last: Option<Day>, ghost rows: seq<Row>)
    requires store.Valid()
    modifies store
    ensures store.Valid()
    ensures processedToday ==> result.None? && store.table == old(store.table)
    ensures !processedToday ==>
      && Synced(old(store.table), store.table, scno, src, today, last)
      && (result.Some? <==> SyncBatchAccepted(scno, src, today, last) && rows != [])
      && (result.Some? <==> SyncBatchAccepted(scno, src, today, last) && HasRows(store.table, scno))
    ensures !processedToday && SyncBatchAccepted(scno, src, today, last) ==>
      ClientRowsOf(store.table, scno, rows) && NonNegative(rows)
    ensures result.Some? ==> rows != [] && result.value == ResultOf(scno, Calculate(rows, est).value)
    ensures result.Some? ==> !processedToday && result.value.scno == scno && result.value.peakRatio.None?
  {
    rows := [];
    last := None;
    if processedToday {
      return None, last, rows;
    }
    ghost var before := store.table;
    var ok, lastDate, requested := SyncClient(store, scno, src, today);
    last := lastDate;
    ghost var w := SyncWindow(last, LookbackStart(today), today);
    FetchedBatchWellFormed(scno, src, w.0, w.1);
    UpsertedWellFormed(before, FetchSpec(scno, src, w.0, w.1));
    if !ok {
      return None, last, rows;
    }
    var df := store.ClientRows(scno);
    rows := df;
    ClientRowsNonNegative(store.table, scno, df);
    ClientRowsEmptyIff(store.table, scno, df);
    if df == [] {
      return None, last, rows;
    }
    var flex := Calculate(df, est);
    result := Some(ResultOf(scno, flex.value));
  }

  /** One client's pass through `process_client`: the latest date stored
      before the sync, the rows the `SELECT` returned afterwards and the
      result. */
  datatype Step = Step(last: Option<Day>, rows: seq<Row>, outcome: Option<Candidate>)

  /** What `process_client` does to the table for one client and what it
      yields: nothing, and no change, for a client already processed today;
      otherwise the sync from the latest stored date, the client's stored
      rows read back once the insert is accepted, and a result exactly when
      the insert was accepted and the client then has stored rows, that
      result being the metrics of those rows. */
  ghost predicate ClientOutcome(before: map<Key, real>, after: map<Key, real>, scno: string, src: Day -> Response,
                                today: Day, est: Estimators, processed: bool, s: Step)
  {
    if processed then s.outcome.None? && after == before
    else
      && Synced(before, after, scno, src, today, s.last)
      && (s.outcome.Some? <==> SyncBatchAccepted(scno, src, today, s.last) && HasRows(after, scno))
      && (SyncBatchAccepted(scno, src, today, s.last) ==> ClientRowsOf(after, scno, s.rows))
      && (s.outcome.Some? ==> s.rows != [] && s.outcome.value == ResultOf(scno, Calculate(s.rows, est).value))
  }

  /** Client `j` moved the table from `tables[j]` to `tables[j + 1]` as
      `steps[j]` records, for every client handled so far. */
  ghost predicate Trace(tables: seq<map<Key, real>>, steps: seq<Step>, clients: seq<string>,
                        remote: string -> Day -> Response, today: Day, est: Estimators, processedToday: set<string>)
  {
    && |tables| == |steps| + 1 && |steps| <= |clients|
    && forall j :: 0 <= j < |steps| ==>
         ClientOutcome(tables[j], tables[j + 1], clients[j], remote(clients[j]), today, est,
                       clients[j] in processedToday, steps[j])
  }

  /** Handling the next client extends the trace by its step. */
  lemma TraceExtend(tables: seq<map<Key, real>>, steps: seq<Step>, clients: seq<string>,
                    remote: string -> Day -> Response, today: Day, est: Estimators, processedToday: set<string>,
                    after: map<Key, real>, s: Step)
    requires Trace(tables, steps, clients, remote, today, est, processedToday) && |steps| < |clients|
    requires var c := clients[|steps|];
      ClientOutcome(tables[|steps|], after, c, remote(c), today, est, c in processedToday, s)
    ensures Trace(tables + [after], steps + [s], clients, remote, today, est, processedToday)
  {
    var ts, ss := tables + [after], steps + [s];
    forall j | 0 <= j < |ss|
      ensures ClientOutcome(ts[j], ts[j + 1], clients[j], remote(clients[j]), today, est, clients[j] in processedToday, ss[j])
    {
      if j < |steps| {
        assert ts[j] == tables[j] && ts[j + 1] == tables[j + 1] && ss[j] == steps[j];
      } else {
        assert ts[j] == tables[|steps|] && ts[j + 1] == after && ss[j] == s;
      }
    }
  }

  /** The results in client order, the clients without one dropped. */
  function Collected(steps: seq<Step>): (r: seq<Candidate>)
    ensures |r| <= |steps|
    ensures forall c :: c in r ==> exists j :: 0 <= j < |steps| && steps[j].outcome == Some(c)
  {
    if steps == [] then []
    else
      var init := steps[..|steps| - 1];
      var o := steps[|steps| - 1].outcome;
      assert forall j :: 0 <= j < |init| ==> init[j] == steps[j];
      Collected(init) + (if o.Some? then [o.value] else [])
  }

  /** `main` after the client list is known, with the thread pool run one
      client at a time: client `i` moves the table from `tables[i]` to
      `tables[i + 1]` as `steps[i]` records; the results are the clients'
      results in client order, and they are ranked. */
  method RunPipeline(store: ConsumptionStore, clients: seq<string>, remote: string -> Day -> Response,
                     today: Day, est: Estimators, processedToday: set<string>)
    returns (results: seq<Candidate>, ranked: seq<Ranked>,
             ghost tables: seq<map<Key, real>>, ghost steps: seq<Step>)
    requires store.Valid()
    modifies store
    ensures store.Valid()
    ensures Trace(tables, steps, clients, remote, today, est, processedToday) && |steps| == |clients|
    ensures tables[0] == old(store.table) && tables[|clients|] == store.table
    ensures results == Collected(steps)
    ensures forall i :: 0 <= i < |results| ==>
      results[i].scno in clients && results[i].scno !in processedToday && results[i].peakRatio.None?
    ensures ranked == RankClients(results)
  {
    results := [];
    tables := [store.table];
    steps := [];
    for i := 0 to |clients|
      invariant store.Valid()
      invariant Trace(tables, steps, clients, remote, today, est, processedToday) && |steps| == i
      invariant tables[0] == old(store.table) && tables[i] == store.table
      invariant results == Collected(steps)
      invariant forall c :: c in results ==> c.scno in clients && c.scno !in processedToday && c.peakRatio.None?
    {
      var scno := clients[i];
      ghost var before := store.table;
      var result, last, rows := ProcessClient(store, scno, remote(scno), today, est, scno in processedToday);
      ghost var step := Step(last, rows, result);
      assert ClientOutcome(before, store.table, scno, remote(scno), today, est, scno in processedToday, step);
      TraceExtend(tables, steps, clients, remote, today, est, processedToday, store.table, step);
      assert (steps + [step])[..i] == steps;
      tables := tables + [store.table];
      steps := steps + [step];
      if result.Some? {
        var c := result.value;
        assert c.scno in clients && c.scno !in processedToday && c.peakRatio.None?;
        results := results + [c];
      }
    }
    assert forall j :: 0 <= j < |results| ==> results[j] in results;
    ranked := RankClients(results);
  }

  /** Stored rows hold non-negative consumption. */
  lemma ClientRowsNonNegative(table: map<Key, real>, scno: string, rows: seq<Row>)
    requires WellFormedTable(table) && ClientRowsOf(table, scno, rows)
    ensures NonNegative(rows)
    ensures forall i :: 0 <= i < |rows| ==> 0 <= rows[i].hour <= 23
  {
    forall i | 0 <= i < |rows| ensures rows[i].consumption >= 0.0 && 0 <= rows[i].hour <= 23 {
      assert rows[i] in rows;
    }
  }

  /** With (date, hour) pairs unique, the pivot cell of a row is that row's
      own consumption. */
  lemma {:induction false} CellOfUniqueRow(rows: seq<Row>, k: int)
    requires 0 <= k < |rows|
    requires forall i, j :: 0 <= i < j < |rows| ==> rows[i].date != rows[j].date || rows[i].hour != rows[j].hour
    ensures Cell(rows, rows[k].date, rows[k].hour) == rows[k].consumption
  {
    var init := rows[..|rows| - 1];
    var x := rows[k];
    if k == |rows| - 1 {
      CellAbsent(init, x.date, x.hour);
    } else {
      CellOfUniqueRow(init, k);
    }
  }

  /** The metrics see exactly the stored table: the pivot cell of (date,
      hour) is the stored consumption, and 0 (`fillna(0)`) where nothing is
      stored. */
  lemma StoredCell(table: map<Key, real>, scno: string, rows: seq<Row>, d: int, h: int)
    requires ClientRowsOf(table, scno, rows)
    ensures Cell(rows, d, h) == if Key(scno, d, h) in table then table[Key(scno, d, h)] else 0.0
  {
    var key := Key(scno, d, h);
    if key in table {
      assert RowAt(table, key) in rows;
      var k :| 0 <= k < |rows| && rows[k] == RowAt(table, key);
      CellOfUniqueRow(rows, k);
    } else {
      forall i | 0 <= i < |rows| ensures rows[i].date != d || rows[i].hour != h {
        assert rows[i] in rows;
      }
      CellAbsent(rows, d, h);
    }
  }

  /** flexibility_pred.py's ranking has no peak ratio, so no client is ever
      penalised: every ranked row keeps its unpenalised index. */
  lemma PipelineNeverPenalises(results: seq<Candidate>, i: int)
    requires forall j :: 0 <= j < |results| ==> results[j].peakRatio.None?
    requires 0 <= i < |RankClients(results)|
    ensures RankClients(results)[i].scored.reason == Normal
    ensures RankClients(results)[i].scored.index == BaseIndex(RankClients(results)[i].scored)
  {
    var k := OutputRowSource(results, i);
    var cs := Complete(results);
    assert ScoredRows(results)[k].cand == cs[k];
    assert cs[k] in results;
    NoPeakRatioNoPenalty(results, k);
  }
}
