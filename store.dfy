/** The `consumption` table and the incremental sync of `process_client`
    (flexibility_pred.py): find the client's last stored date, fetch the
    missing window through yesterday and upsert it keyed by
    (scno, date, hour). The table is an in-memory map. */
module Store {
  import opened Wrappers
  import opened Fetch
  import Metrics

  /** The table's conflict key `(scno, date, hour)`. */
  datatype Key = Key(scno: string, date: Day, hour: int)

  function KeyOf(r: Reading): Key
  {
    Key(r.scno, r.date, r.hour)
  }

  /** `execute_values` sends its rows in statements of this many rows. */
  const PageSize: nat := 100

  /** No key occurs twice in one statement. */
  predicate DistinctKeys(page: seq<Reading>)
  {
    forall i, j :: 0 <= i < j < |page| ==> KeyOf(page[i]) != KeyOf(page[j])
  }

  /** PostgreSQL refuses an `INSERT ... ON CONFLICT DO UPDATE` that would
      update the same row twice; a batch succeeds exactly when each of its
      pages is free of repeated keys. */
  predicate PagesConflictFree(batch: seq<Reading>)
    decreases |batch|
  {
    if |batch| <= PageSize then DistinctKeys(batch)
    else DistinctKeys(batch[..PageSize]) && PagesConflictFree(batch[PageSize..])
  }

  /** The table after the batch's rows are inserted in order, a row whose
      key exists overwriting only its consumption: no stored key is lost,
      every row's key is present, and the batch's last row is stored as
      sent. */
  function Upserted(table: map<Key, real>, batch: seq<Reading>): (r: map<Key, real>)
    ensures table.Keys <= r.Keys
    ensures forall i :: 0 <= i < |batch| ==> KeyOf(batch[i]) in r
    ensures batch != [] ==> r[KeyOf(batch[|batch| - 1])] == batch[|batch| - 1].consumption
  {
    if batch == [] then table
    else
      var last := batch[|batch| - 1];
      var init := batch[..|batch| - 1];
      assert forall i :: 0 <= i < |init| ==> init[i] == batch[i];
      Upserted(table, init)[KeyOf(last) := last.consumption]
  }

  /** A batch is conflict-free when its first page is and the rest is. */
  lemma FirstPage(batch: seq<Reading>, n: nat)
    requires batch != [] && n == if |batch| <= PageSize then |batch| else PageSize
    ensures PagesConflictFree(batch) == (DistinctKeys(batch[..n]) && PagesConflictFree(batch[n..]))
  {
    if |batch| <= PageSize {
      assert batch[..n] == batch;
      assert PagesConflictFree(batch[n..]);
    }
  }

  /** Both sides of a split of a well-formed batch are well-formed. */
  lemma SplitWellFormed(batch: seq<Reading>, n: nat)
    requires WellFormedBatch(batch) && n <= |batch|
    ensures WellFormedBatch(batch[..n]) && WellFormedBatch(batch[n..])
  {
    assert forall i :: 0 <= i < n ==> batch[..n][i] == batch[i];
    assert forall i :: 0 <= i < |batch| - n ==> batch[n..][i] == batch[n + i];
  }

  /** Upserting two batches one after the other is upserting their concatenation. */
  lemma {:induction false} UpsertedAppend(table: map<Key, real>, a: seq<Reading>, b: seq<Reading>)
    ensures Upserted(table, a + b) == Upserted(Upserted(table, a), b)
    decreases |b|
  {
    if b == [] {
      assert a + b == a;
    } else {
      assert (a + b)[..|a + b| - 1] == a + b[..|b| - 1];
      UpsertedAppend(table, a, b[..|b| - 1]);
    }
  }

  /** Rows hold an hour of the day and a non-negative consumption. */
  ghost predicate WellFormedTable(table: map<Key, real>)
  {
    forall k :: k in table ==> 0 <= k.hour <= 23 && table[k] >= 0.0
  }

  ghost predicate WellFormedBatch(batch: seq<Reading>)
  {
    forall i :: 0 <= i < |batch| ==> 0 <= batch[i].hour <= 23 && batch[i].consumption >= 0.0
  }

  /** `SELECT MAX(date) FROM consumption WHERE scno = ...`: `None` when the
      client has no row. */
  ghost predicate IsLastDate(keys: set<Key>, scno: string, last: Option<Day>)
  {
    match last
    case None => forall k :: k in keys ==> k.scno != scno
    case Some(d) =>
      && (exists k :: k in keys && k.scno == scno && k.date == d)
      && (forall k :: k in keys && k.scno == scno ==> k.date <= d)
  }

  /** One row of `SELECT date, hour, consumption FROM consumption WHERE scno = ...`. */
  function RowAt(table: map<Key, real>, k: Key): Metrics.Row
    requires k in table
  {
    Metrics.Row(k.date, k.hour, table[k])
  }

  /** `rows` is what `SELECT date, hour, consumption FROM consumption WHERE
      scno = ...` can return: the client's stored rows, each (date, hour)
      once, in any order. */
  ghost predicate ClientRowsOf(table: map<Key, real>, scno: string, rows: seq<Metrics.Row>)
  {
    && (forall r :: r in rows <==> exists k :: k in table && k.scno == scno && r == RowAt(table, k))
    && (forall i, j :: 0 <= i < j < |rows| ==> rows[i].date != rows[j].date || rows[i].hour != rows[j].hour)
  }

  /** The table holds at least one row of `scno`. */
  ghost predicate HasRows(table: map<Key, real>, scno: string)
  {
    exists k :: k in table && k.scno == scno
  }

  class ConsumptionStore {
    var table: map<Key, real>

    ghost predicate Valid()
      reads this
    {
      WellFormedTable(table)
    }

    constructor ()
      ensures table == map[] && Valid()
    {
      table := map[];
    }

    /** `execute_values(... ON CONFLICT (scno, date, hour) DO UPDATE ...)`
        followed by `commit`: either the whole batch is applied or, when a
        page repeats a key and the statement raises, nothing is committed. */
    method UpsertBatch(batch: seq<Reading>) returns (ok: bool)
      requires Valid() && WellFormedBatch(batch)
      modifies this
      ensures Valid()
      ensures ok == PagesConflictFree(batch)
      ensures ok ==> table == Upserted(old(table), batch)
      ensures !ok ==> table == old(table)
    {
      var saved := table;
      var rest := batch;
      ghost var done: seq<Reading> := [];
      while rest != []
        invariant batch == done + rest
        invariant table == Upserted(saved, done)
        invariant Valid() && WellFormedBatch(rest)
        invariant PagesConflictFree(batch) == PagesConflictFree(rest)
        decreases |rest|
      {
        var n := if |rest| <= PageSize then |rest| else PageSize;
        var page := rest[..n];
        var pageOk := DistinctKeys(page);
        FirstPage(rest, n);
        assert PagesConflictFree(rest) == (pageOk && PagesConflictFree(rest[n..]));
        if !pageOk {
          table := saved;
          return false;
        }
        SplitWellFormed(rest, n);
        ApplyPage(page);
        UpsertedAppend(saved, done, page);
        assert rest == page + rest[n..];
        AppendAssociative(done, page, rest[n..]);
        done := done + page;
        rest := rest[n..];
      }
      assert done == batch;
      ok := true;
    }

    /** One statement's rows, inserted in order. */
    method ApplyPage(page: seq<Reading>)
      requires Valid() && WellFormedBatch(page)
      modifies this
      ensures Valid()
      ensures table == Upserted(old(table), page)
    {
      ghost var saved := table;
      for j := 0 to |page|
        invariant table == Upserted(saved, page[..j])
      {
        assert page[..j + 1][..j] == page[..j];
        table := table[KeyOf(page[j]) := page[j].consumption];
      }
      assert page[..|page|] == page;
      UpsertedWellFormed(saved, page);
    }

    /** The latest stored date of `scno`. */
    method LastDate(scno: string) returns (last: Option<Day>)
      ensures IsLastDate(table.Keys, scno, last)
    {
      last := None;
      var keys := table.Keys;
      while keys != {}
        invariant keys <= table.Keys
        invariant IsLastDate(table.Keys - keys, scno, last)
        decreases keys
      {
        var k :| k in keys;
        if k.scno == scno && (last.None? || k.date > last.value) {
          last := Some(k.date);
        }
        keys := keys - {k};
      }
    }

    /** The rows of `scno`, one per stored (date, hour), in no particular order. */
    method ClientRows(scno: string) returns (rows: seq<Metrics.Row>)
      ensures ClientRowsOf(table, scno, rows)
    {
      rows := [];
      var keys := table.Keys;
      while keys != {}
        invariant keys <= table.Keys
        invariant forall r :: r in rows <==> exists k :: k in table.Keys - keys && k.scno == scno && r == RowAt(table, k)
        invariant forall i, j :: 0 <= i < j < |rows| ==> rows[i].date != rows[j].date || rows[i].hour != rows[j].hour
        decreases keys
      {
        var k :| k in keys;
        if k.scno == scno {
          forall r | r in rows ensures r.date != k.date || r.hour != k.hour {
            var k' :| k' in table.Keys - keys && k'.scno == scno && r == RowAt(table, k');
            assert k' != k;
          }
          rows := rows + [RowAt(table, k)];
        }
        keys := keys - {k};
      }
    }
  }

  /** The first day of the 60-day lookback: `end_date = today - 1` and
      `start_date = end_date - 60`, so a first sync asks for the 61 days
      ending yesterday. */
  function LookbackStart(today: Day): (start: Day)
    ensures |Window(start, today - 1)| == 61 && Window(start, today - 1)[60] == today - 1
  {
    WindowExact(today - 1 - 60, today - 1);
    today - 1 - 60
  }

  /** `(fetch_start, fetch_end)`: the day after the last stored date, or the
      lookback start for a client with no rows; through yesterday. The days
      requested are exactly those after the last stored date (or from the
      lookback start) and before today: no stored day is asked for again
      and no missing day up to yesterday is skipped. */
  function SyncWindow(last: Option<Day>, lookbackStart: Day, today: Day): (w: (Day, Day))
    ensures w.1 == today - 1
    ensures forall d :: d in Window(w.0, w.1) <==>
      (if last.Some? then last.value < d else lookbackStart <= d) && d < today
  {
    var w := (if last.Some? then last.value + 1 else lookbackStart, today - 1);
    WindowMembers(w.0, w.1);
    w
  }

  /** The incremental sync of `process_client`: `requested` records the days
      asked of the remote source. */
  method SyncClient(store: ConsumptionStore, scno: string, src: Day -> Response, today: Day)
    returns (ok: bool, ghost last: Option<Day>, ghost requested: seq<Day>)
    requires store.Valid()
    modifies store
    ensures store.Valid()
    ensures IsLastDate(old(store.table).Keys, scno, last)
    ensures var w := SyncWindow(last, LookbackStart(today), today);
      var batch := FetchSpec(scno, src, w.0, w.1);
      && requested == Window(w.0, w.1)
      && ok == PagesConflictFree(batch)
      && store.table == if ok then Upserted(old(store.table), batch) else old(store.table)
  {
    var lastDate := store.LastDate(scno);
    last := lastDate;
    var w := SyncWindow(lastDate, LookbackStart(today), today);
    var newData, req := FetchConsumption(scno, src, w.0, w.1);
    requested := req;
    ok := true;
    if newData != [] {
      FetchedBatchWellFormed(scno, src, w.0, w.1);
      ok := store.UpsertBatch(newData);
    }
  }

  /** A key is in the upserted table exactly when it was already stored or
      some row of the batch carries it. */
  lemma {:induction false} UpsertedKeys(table: map<Key, real>, batch: seq<Reading>, k: Key)
    ensures k in Upserted(table, batch) <==> k in table || exists i :: 0 <= i < |batch| && KeyOf(batch[i]) == k
  {
    if batch != [] {
      var init := batch[..|batch| - 1];
      UpsertedKeys(table, init, k);
      if exists i :: 0 <= i < |init| && KeyOf(init[i]) == k {
        var i :| 0 <= i < |init| && KeyOf(init[i]) == k;
        assert KeyOf(batch[i]) == k;
      }
      if exists i :: 0 <= i < |batch| && KeyOf(batch[i]) == k {
        var i :| 0 <= i < |batch| && KeyOf(batch[i]) == k;
        if i < |init| { assert KeyOf(init[i]) == k; }
      }
    }
  }

  /** A key no row of the batch carries keeps its stored value (or stays absent). */
  lemma {:induction false} UpsertedUntouched(table: map<Key, real>, batch: seq<Reading>, k: Key)
    requires forall i :: 0 <= i < |batch| ==> KeyOf(batch[i]) != k
    ensures k in Upserted(table, batch) <==> k in table
    ensures k in table ==> Upserted(table, batch)[k] == table[k]
  {
    if batch != [] {
      UpsertedUntouched(table, batch[..|batch| - 1], k);
    }
  }

  /** The last row of the batch with a given key decides its stored
      consumption (`DO UPDATE SET consumption = EXCLUDED.consumption`). */
  lemma {:induction false} UpsertedLastWins(table: map<Key, real>, batch: seq<Reading>, i: int)
    requires 0 <= i < |batch|
    requires forall j :: i < j < |batch| ==> KeyOf(batch[j]) != KeyOf(batch[i])
    ensures KeyOf(batch[i]) in Upserted(table, batch)
    ensures Upserted(table, batch)[KeyOf(batch[i])] == batch[i].consumption
  {
    if i < |batch| - 1 {
      UpsertedLastWins(table, batch[..|batch| - 1], i);
    }
  }

  /** The upsert overrides the stored table with the batch's own map. */
  lemma {:induction false} UpsertedOverride(table: map<Key, real>, batch: seq<Reading>)
    ensures Upserted(table, batch) == table + Upserted(map[], batch)
  {
    if batch == [] {
      assert table + map[] == table;
    } else {
      UpsertedOverride(table, batch[..|batch| - 1]);
    }
  }

  /** Applying the same batch twice gives the same table as applying it once. */
  lemma UpsertIdempotent(table: map<Key, real>, batch: seq<Reading>)
    ensures Upserted(Upserted(table, batch), batch) == Upserted(table, batch)
  {
    var own := Upserted(map[], batch);
    UpsertedOverride(table, batch);
    UpsertedOverride(table + own, batch);
    assert (table + own) + own == table + own;
  }

  /** Well-formed rows keep the table well-formed. */
  lemma {:induction false} UpsertedWellFormed(table: map<Key, real>, batch: seq<Reading>)
    requires WellFormedTable(table) && WellFormedBatch(batch)
    ensures WellFormedTable(Upserted(table, batch))
  {
    if batch != [] {
      UpsertedWellFormed(table, batch[..|batch| - 1]);
    }
  }

  /** Every batch the sync fetches is well-formed. */
  lemma FetchedBatchWellFormed(scno: string, src: Day -> Response, start: Day, end: Day)
    ensures WellFormedBatch(FetchSpec(scno, src, start, end))
  {
    var rows := FetchSpec(scno, src, start, end);
    assert forall i :: 0 <= i < |rows| ==> rows[i] in rows;
  }

  /** A client already synced through yesterday triggers no request. */
  lemma UpToDateNoRequests(lastDay: Day, lookbackStart: Day, today: Day)
    requires lastDay >= today - 1
    ensures var w := SyncWindow(Some(lastDay), lookbackStart, today); Window(w.0, w.1) == []
  {
    var w := SyncWindow(Some(lastDay), lookbackStart, today);
    WindowExact(w.0, w.1);
  }

  /** The client's rows come back empty exactly when the table holds none
      of them. */
  lemma ClientRowsEmptyIff(table: map<Key, real>, scno: string, rows: seq<Metrics.Row>)
    requires ClientRowsOf(table, scno, rows)
    ensures rows == [] <==> !HasRows(table, scno)
  {
    if rows != [] {
      assert rows[0] in rows;
    }
    if HasRows(table, scno) {
      var k :| k in table && k.scno == scno;
      assert RowAt(table, k) in rows;
    }
  }

  /** The latest stored date is determined by the stored keys. */
  lemma LastDateUnique(keys: set<Key>, scno: string, a: Option<Day>, b: Option<Day>)
    requires IsLastDate(keys, scno, a) && IsLastDate(keys, scno, b)
    ensures a == b
  {
    if a.Some? {
      var k :| k in keys && k.scno == scno && k.date == a.value;
    }
    if b.Some? {
      var k :| k in keys && k.scno == scno && k.date == b.value;
    }
  }
}
