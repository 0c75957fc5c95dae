/** `fetch_consumption` of flexibility_pred.py: walk the days of a window
    one at a time, ask the remote source for each day's hourly readings and
    keep every entry whose hour and consumption parse. The HTTP source is a
    function from a day to its response. */
module Fetch {
  import opened Wrappers
  import opened HourField

  /** Days are counted from 1970-01-01; `date_str` is this day written out. */
  type Day = int

  /** One element of a day's JSON list.
      - `Object`: a JSON object; each key is absent (`None`) or present
        with a value.
      - `Scalar`: JSON null, a number or a boolean, on which `"hour" in e`
        raises; the outer handler then abandons the rest of the day.
      - `Container`: a string or a list, on which `in` tests for a
        substring or an element. Either that test fails, or indexing by
        `"hour"` raises inside the inner handler, so the entry is skipped. */
  datatype Entry =
    | Object(hour: Option<Json>, consumption: Option<Json>)
    | Scalar
    | Container

  /** What one request for a day yields: a 404, any raised exception (a
      non-2xx status, a timeout, a body that is not JSON), a JSON value that
      is not a list, or a list of entries. */
  datatype Response = NotFound | Failed | NotAList | Entries(entries: seq<Entry>)

  /** The tuple `(scno, date_str, hour, cons)` appended to `all_data`. */
  datatype Reading = Reading(scno: string, date: Day, hour: int, consumption: real)

  /** The reading one entry contributes: present exactly when the entry is
      an object with both keys whose hour and consumption both parse, and
      then made of the parsed values; otherwise the entry is skipped. */
  function EntryReading(scno: string, d: Day, e: Entry): (r: Option<Reading>)
    ensures r.Some? <==>
      && e.Object? && e.hour.Some? && e.consumption.Some?
      && ParseHourField(e.hour.value).Success?
      && ParseConsumption(e.consumption.value).Some?
    ensures r.Some? ==>
      r.value == Reading(scno, d, ParseHourField(e.hour.value).value, ParseConsumption(e.consumption.value).value)
    ensures r.Some? ==> 0 <= r.value.hour <= 23 && r.value.consumption >= 0.0
  {
    if !e.Object? || e.hour.None? || e.consumption.None? then None
    else
      match ParseHourField(e.hour.value)
      case Failure(_) => None
      case Success(h) =>
        match ParseConsumption(e.consumption.value)
        case None => None
        case Some(c) => Some(Reading(scno, d, h, c))
  }

  /** Number of entries read before the first `Scalar`, which ends the day. */
  function ReadPrefix(es: seq<Entry>): (k: nat)
    ensures k <= |es|
    ensures k < |es| ==> es[k].Scalar?
    ensures forall i :: 0 <= i < k ==> !es[i].Scalar?
  {
    if es == [] then 0 else if es[0].Scalar? then 0 else 1 + ReadPrefix(es[1..])
  }

  /** The readings a list of entries contributes, in list order. */
  function EntryRows(scno: string, d: Day, es: seq<Entry>): seq<Reading>
  {
    if es == [] then []
    else
      var last := EntryReading(scno, d, es[|es| - 1]);
      EntryRows(scno, d, es[..|es| - 1]) + (if last.Some? then [last.value] else [])
  }

  /** The readings one day contributes: none unless the response is a
      list, and none from the first `Scalar` entry on. */
  function DayRows(scno: string, d: Day, resp: Response): seq<Reading>
  {
    if resp.Entries? then EntryRows(scno, d, resp.entries[..ReadPrefix(resp.entries)]) else []
  }

  /** The readings of every day of `[start, end]`, in day order. Every one
      carries the requested scno, a day of the window, an hour in 0..23 and
      a non-negative consumption. */
  function FetchSpec(scno: string, src: Day -> Response, start: Day, end: Day): (rows: seq<Reading>)
    ensures forall r :: r in rows ==>
      r.scno == scno && start <= r.date <= end && 0 <= r.hour <= 23 && r.consumption >= 0.0
    decreases end - start
  {
    if end < start then []
    else
      DayRowsWellFormed(scno, end, src(end));
      FetchSpec(scno, src, start, end - 1) + DayRows(scno, end, src(end))
  }

  /** The days requested for `[start, end]`, in request order. */
  function Window(start: Day, end: Day): seq<Day>
    decreases end - start
  {
    if end < start then [] else Window(start, end - 1) + [end]
  }

  /** The while loop of `fetch_consumption`; `requested` records the day of
      each request made. */
  method FetchConsumption(scno: string, src: Day -> Response, start: Day, end: Day)
    returns (allData: seq<Reading>, ghost requested: seq<Day>)
    ensures allData == FetchSpec(scno, src, start, end)
    ensures requested == Window(start, end)
  {
    allData := [];
    requested := [];
    var current := start;
    while current <= end
      invariant current == start || start < current <= end + 1
      invariant allData == FetchSpec(scno, src, start, current - 1)
      invariant requested == Window(start, current - 1)
      decreases end - current
    {
      requested := requested + [current];
      var resp := src(current);
      if resp.Entries? {
        allData := AppendEntries(scno, current, resp.entries, allData);
      }
      assert allData == FetchSpec(scno, src, start, current - 1) + DayRows(scno, current, resp);
      current := current + 1;
    }
  }

  lemma EntryRowsStep(scno: string, d: Day, es: seq<Entry>, i: int)
    requires 0 <= i < |es|
    ensures var r := EntryReading(scno, d, es[i]);
      EntryRows(scno, d, es[..i + 1]) == EntryRows(scno, d, es[..i]) + (if r.Some? then [r.value] else [])
  {
    assert es[..i + 1][..i] == es[..i];
  }

  /** The `for e in daily` loop: each entry that parses is appended, until
      a `Scalar` entry raises and ends the day. */
  method AppendEntries(scno: string, d: Day, daily: seq<Entry>, allData: seq<Reading>) returns (out: seq<Reading>)
    ensures out == allData + EntryRows(scno, d, daily[..ReadPrefix(daily)])
  {
    out := allData;
    var i := 0;
    while i < |daily| && !daily[i].Scalar?
      invariant 0 <= i <= ReadPrefix(daily)
      invariant out == allData + EntryRows(scno, d, daily[..i])
      decreases |daily| - i
    {
      EntryRowsStep(scno, d, daily, i);
      var reading := EntryReading(scno, d, daily[i]);
      if reading.Some? {
        AppendAssociative(allData, EntryRows(scno, d, daily[..i]), [reading.value]);
        out := out + [reading.value];
      } else {
        assert EntryRows(scno, d, daily[..i]) + [] == EntryRows(scno, d, daily[..i]);
      }
      i := i + 1;
    }
  }

  /** A day is requested exactly when it lies in `[start, end]`. */
  lemma {:induction false} WindowMembers(start: Day, end: Day)
    ensures forall d :: d in Window(start, end) <==> start <= d <= end
    decreases end - start
  {
    if end >= start {
      WindowMembers(start, end - 1);
    }
  }

  /** Each day of the window is requested exactly once, in increasing order. */
  lemma {:induction false} WindowExact(start: Day, end: Day)
    ensures |Window(start, end)| == if end < start then 0 else end - start + 1
    ensures forall i :: 0 <= i < |Window(start, end)| ==> Window(start, end)[i] == start + i
    decreases end - start
  {
    if end >= start {
      WindowExact(start, end - 1);
    }
  }

  lemma {:induction false} EntryRowsWellFormed(scno: string, d: Day, es: seq<Entry>)
    ensures forall r :: r in EntryRows(scno, d, es) ==>
      r.scno == scno && r.date == d && 0 <= r.hour <= 23 && r.consumption >= 0.0
  {
    if es != [] {
      EntryRowsWellFormed(scno, d, es[..|es| - 1]);
    }
  }

  lemma DayRowsWellFormed(scno: string, d: Day, resp: Response)
    ensures forall r :: r in DayRows(scno, d, resp) ==>
      r.scno == scno && r.date == d && 0 <= r.hour <= 23 && r.consumption >= 0.0
  {
    if resp.Entries? {
      EntryRowsWellFormed(scno, d, resp.entries[..ReadPrefix(resp.entries)]);
    }
  }

  predicate DatesOrdered(rows: seq<Reading>)
  {
    forall i, j :: 0 <= i < j < |rows| ==> rows[i].date <= rows[j].date
  }

  /** Readings come out in non-decreasing day order. */
  lemma {:induction false} FetchDatesOrdered(scno: string, src: Day -> Response, start: Day, end: Day)
    ensures DatesOrdered(FetchSpec(scno, src, start, end))
    decreases end - start
  {
    if end >= start {
      var a: seq<Reading> := FetchSpec(scno, src, start, end - 1);
      var b: seq<Reading> := DayRows(scno, end, src(end));
      FetchDatesOrdered(scno, src, start, end - 1);
      DayRowsWellFormed(scno, end, src(end));
      OrderedAppendDay(a, b, end);
    }
  }

  lemma OrderedAppendDay(a: seq<Reading>, b: seq<Reading>, d: Day)
    requires DatesOrdered(a)
    requires forall r :: r in a ==> r.date <= d - 1
    requires forall r :: r in b ==> r.date == d
    ensures DatesOrdered(a + b)
  {
    forall i: int, j: int | 0 <= i < j < |a + b| ensures (a + b)[i].date <= (a + b)[j].date {
      if j < |a| {
        assert (a + b)[i] == a[i] && (a + b)[j] == a[j];
      } else if i < |a| {
        assert (a + b)[i] == a[i] && a[i] in a;
        assert (a + b)[j] == b[j - |a|] && b[j - |a|] in b;
      } else {
        assert (a + b)[i] == b[i - |a|] && b[i - |a|] in b;
        assert (a + b)[j] == b[j - |a|] && b[j - |a|] in b;
      }
    }
  }

  lemma AppendAssociative(a: seq<Reading>, b: seq<Reading>, c: seq<Reading>)
    ensures (a + b) + c == a + (b + c)
  {
  }

  /** Splitting the window at any day splits the readings there. */
  lemma {:induction false} FetchSplit(scno: string, src: Day -> Response, start: Day, mid: Day, end: Day)
    requires start - 1 <= mid <= end
    ensures FetchSpec(scno, src, start, end) == FetchSpec(scno, src, start, mid) + FetchSpec(scno, src, mid + 1, end)
    decreases end - mid
  {
    if mid < end {
      FetchSplit(scno, src, start, mid, end - 1);
      var a := FetchSpec(scno, src, start, mid);
      var b := FetchSpec(scno, src, mid + 1, end - 1);
      var c := DayRows(scno, end, src(end));
      assert FetchSpec(scno, src, mid + 1, end) == b + c;
      AppendAssociative(a, b, c);
    } else {
      assert FetchSpec(scno, src, mid + 1, end) == [];
    }
  }

  /** A 404 or failed day contributes nothing and leaves every other day's
      readings as they are. */
  lemma FailedDaySkipped(scno: string, src: Day -> Response, start: Day, d: Day, end: Day)
    requires start <= d <= end && !src(d).Entries?
    ensures FetchSpec(scno, src, start, end) == FetchSpec(scno, src, start, d - 1) + FetchSpec(scno, src, d + 1, end)
  {
    FetchSplit(scno, src, start, d, end);
  }

  lemma {:induction false} EntryRowsAppend(scno: string, d: Day, a: seq<Entry>, b: seq<Entry>)
    ensures EntryRows(scno, d, a + b) == EntryRows(scno, d, a) + EntryRows(scno, d, b)
    decreases |b|
  {
    if b != [] {
      assert (a + b)[..|a + b| - 1] == a + b[..|b| - 1];
      EntryRowsAppend(scno, d, a, b[..|b| - 1]);
    } else {
      assert a + b == a;
    }
  }

  lemma EntryRowsSingle(scno: string, d: Day, e: Entry)
    ensures var r := EntryReading(scno, d, e);
      EntryRows(scno, d, [e]) == if r.Some? then [r.value] else []
  {
    assert [e][..0] == [];
  }

  /** A malformed entry is dropped without disturbing its neighbours. */
  lemma MalformedEntrySkipped(scno: string, d: Day, a: seq<Entry>, e: Entry, b: seq<Entry>)
    requires EntryReading(scno, d, e).None?
    ensures EntryRows(scno, d, a + [e] + b) == EntryRows(scno, d, a) + EntryRows(scno, d, b)
  {
    EntryRowsAppend(scno, d, a + [e], b);
    EntryRowsAppend(scno, d, a, [e]);
    EntryRowsSingle(scno, d, e);
  }

  /** A null, number or boolean entry ends the day: the entries after it
      contribute nothing, those before it are kept. */
  lemma ScalarEndsDay(scno: string, d: Day, a: seq<Entry>, b: seq<Entry>)
    requires forall i :: 0 <= i < |a| ==> !a[i].Scalar?
    ensures DayRows(scno, d, Entries(a + [Scalar] + b)) == EntryRows(scno, d, a)
  {
    var es := a + [Scalar] + b;
    assert es[|a|].Scalar?;
    assert forall i :: 0 <= i < |a| ==> es[i] == a[i];
    assert ReadPrefix(es) == |a|;
    assert es[..|a|] == a;
  }

  /** A list with no null, number or boolean entry is read to its end. */
  lemma NoScalarReadWhole(scno: string, d: Day, es: seq<Entry>)
    requires forall i :: 0 <= i < |es| ==> !es[i].Scalar?
    ensures DayRows(scno, d, Entries(es)) == EntryRows(scno, d, es)
  {
    assert es[..|es|] == es;
  }

  /** End to end: an object entry whose hour is in the "HH:00" form and
      whose consumption is a whole number yields exactly that reading. */
  lemma ObjectEntryReading(scno: string, d: Day, h: nat, n: nat)
    requires h <= 23
    ensures EntryReading(scno, d, Object(Some(Text(HourText(h))), Some(Text(NumberText(n)))))
         == Some(Reading(scno, d, h, n as real))
  {
    HourTextRoundTrip(h);
    ConsumptionTextRoundTrip(n);
  }

  /** The readings depend only on the responses for days in the window. */
  lemma {:induction false} FetchLocality(scno: string, src: Day -> Response, src': Day -> Response, start: Day, end: Day)
    requires forall d :: start <= d <= end ==> src(d) == src'(d)
    ensures FetchSpec(scno, src, start, end) == FetchSpec(scno, src', start, end)
    decreases end - start
  {
    if end >= start {
      FetchLocality(scno, src, src', start, end - 1);
    }
  }
}
