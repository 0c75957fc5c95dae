/** `rank_clients` (flexibility_pred.py and weekend_weekday.py): keep the
    clients with all three metrics, min-max normalise each metric over the
    cohort (LF and DLSS flipped, so a lower value scores higher), average
    the three into the flexibility index, penalise clients that already use
    little peak-hour energy, and rank by competition ranking (pandas
    `rank(method="min", ascending=False)`). flexibility_pred.py has no peak
    ratio column: its candidates carry `peakRatio == None` and are never
    penalised. */
module Ranking {
  import opened Wrappers
  import opened Stats

  /** One row of the results frame handed to `rank_clients`. */
  datatype Candidate = Candidate(scno: string, lf: Option<real>, lvi: Option<real>, dlss: Option<real>, peakRatio: Option<real>)

  /** `Flexibility_Reason`. */
  datatype Reason = Normal | AlreadyOffPeak

  /** A complete candidate with its normalised scores and (possibly
      penalised) flexibility index. */
  datatype Scored = Scored(cand: Candidate, lfNorm: real, lviNorm: real, dlssNorm: real, index: real, reason: Reason)

  /** A scored row with its `Flexibility_Rank`. */
  datatype Ranked = Ranked(scored: Scored, rank: int)

  /** A ranked row with its `Period` column. */
  datatype Labelled = Labelled(ranked: Ranked, period: string)

  /** The threshold below which a client counts as already off-peak. */
  const OffPeakThreshold: real := 0.3

  /** The factor applied to an off-peak client's index. */
  const OffPeakFactor: real := 0.7

  function ReasonText(r: Reason): string
  {
    match r
    case Normal => "Normal"
    case AlreadyOffPeak => "Less Flexible — already in off-peak"
  }

  predicate IsComplete(c: Candidate)
  {
    c.lf.Some? && c.lvi.Some? && c.dlss.Some?
  }

  predicate AllComplete(cs: seq<Candidate>)
  {
    forall i :: 0 <= i < |cs| ==> IsComplete(cs[i])
  }

  /** `dropna(subset=["LF", "LVI", "DLSS"])`, order kept. */
  function Complete(cands: seq<Candidate>): (r: seq<Candidate>)
    ensures |r| <= |cands|
    ensures AllComplete(r)
    ensures forall c :: c in r <==> c in cands && IsComplete(c)
  {
    if cands == [] then []
    else
      var init := Complete(cands[..|cands| - 1]);
      var last := cands[|cands| - 1];
      assert cands == cands[..|cands| - 1] + [last];
      if IsComplete(last) then init + [last] else init
  }

  function LfValues(cs: seq<Candidate>): (v: seq<real>)
    requires AllComplete(cs)
    ensures |v| == |cs| && forall i :: 0 <= i < |cs| ==> v[i] == cs[i].lf.value
  {
    seq(|cs|, i requires 0 <= i < |cs| => cs[i].lf.value)
  }

  function LviValues(cs: seq<Candidate>): (v: seq<real>)
    requires AllComplete(cs)
    ensures |v| == |cs| && forall i :: 0 <= i < |cs| ==> v[i] == cs[i].lvi.value
  {
    seq(|cs|, i requires 0 <= i < |cs| => cs[i].lvi.value)
  }

  function DlssValues(cs: seq<Candidate>): (v: seq<real>)
    requires AllComplete(cs)
    ensures |v| == |cs| && forall i :: 0 <= i < |cs| ==> v[i] == cs[i].dlss.value
  {
    seq(|cs|, i requires 0 <= i < |cs| => cs[i].dlss.value)
  }

  /** `(x - min) / (max - min)`. */
  function Scale(x: real, lo: real, hi: real): real
    requires lo < hi
  {
    (x - lo) / (hi - lo)
  }

  /** The unpenalised index: the mean of the three normalised scores. */
  function BaseIndex(s: Scored): real
  {
    (s.lfNorm + s.lviNorm + s.dlssNorm) / 3.0
  }

  /** Some metric has no spread: every normalised value of it is 0/0. */
  predicate ZeroSpread(cs: seq<Candidate>)
    requires AllComplete(cs) && |cs| > 0
  {
    Min(LfValues(cs)) == Max(LfValues(cs))
    || Min(LviValues(cs)) == Max(LviValues(cs))
    || Min(DlssValues(cs)) == Max(DlssValues(cs))
  }

  function ScoreRow(c: Candidate, lf: seq<real>, lvi: seq<real>, dlss: seq<real>): Scored
    requires IsComplete(c) && |lf| > 0 && |lvi| > 0 && |dlss| > 0
    requires Min(lf) < Max(lf) && Min(lvi) < Max(lvi) && Min(dlss) < Max(dlss)
  {
    var s := Scored(c,
      1.0 - Scale(c.lf.value, Min(lf), Max(lf)),
      Scale(c.lvi.value, Min(lvi), Max(lvi)),
      1.0 - Scale(c.dlss.value, Min(dlss), Max(dlss)),
      0.0, Normal);
    s.(index := BaseIndex(s))
  }

  /** The normalisation step and the `dropna` after it: with zero spread in
      any metric every row is dropped. */
  function Normalise(cs: seq<Candidate>): (r: seq<Scored>)
    requires AllComplete(cs)
    ensures |cs| > 0 && !ZeroSpread(cs) ==> |r| == |cs|
    ensures |cs| == 0 || ZeroSpread(cs) ==> r == []
    ensures forall i :: 0 <= i < |r| ==> r[i].cand == cs[i]
  {
    if cs == [] then []
    else
      var lf := LfValues(cs);
      var lvi := LviValues(cs);
      var dlss := DlssValues(cs);
      if ZeroSpread(cs) then []
      else seq(|cs|, i requires 0 <= i < |cs| => ScoreRow(cs[i], lf, lvi, dlss))
  }

  /** The off-peak adjustment of weekend_weekday.py: it keeps the client
      and its scores, and a freshly scored row comes out obeying the
      off-peak rule. */
  function Penalise(s: Scored): (r: Scored)
    ensures r.cand == s.cand && BaseIndex(r) == BaseIndex(s)
    ensures s.reason == Normal && s.index == BaseIndex(s) && 0.0 <= s.index <= 1.0 ==> OffPeakRuleHolds(r)
  {
    if s.cand.peakRatio.Some? && s.cand.peakRatio.value < OffPeakThreshold then
      s.(index := s.index * OffPeakFactor, reason := AlreadyOffPeak)
    else s
  }

  function PenaliseAll(ss: seq<Scored>): (r: seq<Scored>)
    ensures |r| == |ss| && forall i :: 0 <= i < |ss| ==> r[i] == Penalise(ss[i])
  {
    seq(|ss|, i requires 0 <= i < |ss| => Penalise(ss[i]))
  }

  /** How many rows have an index strictly above `x`. */
  function CountAbove(ss: seq<Scored>, x: real): (n: nat)
    ensures n <= |ss|
  {
    if ss == [] then 0
    else CountAbove(ss[..|ss| - 1], x) + (if ss[|ss| - 1].index > x then 1 else 0)
  }

  /** `Flexibility_Rank`: one more than the number of strictly larger indices. */
  function AssignRanks(ss: seq<Scored>): (r: seq<Ranked>)
    ensures |r| == |ss|
    ensures forall i :: 0 <= i < |ss| ==> r[i].scored == ss[i] && r[i].rank == 1 + CountAbove(ss, ss[i].index)
  {
    seq(|ss|, i requires 0 <= i < |ss| => Ranked(ss[i], 1 + CountAbove(ss, ss[i].index)))
  }

  lemma CompleteFrom(cands: seq<Candidate>, k: int)
    requires 0 <= k < |Complete(cands)|
    ensures Complete(cands)[k] in cands
  {
    assert Complete(cands)[k] in Complete(cands);
  }

  /** `dropna` keeps order: the complete rows of a concatenation are those
      of each part, one after the other. */
  lemma {:induction false} CompleteAppend(a: seq<Candidate>, b: seq<Candidate>)
    ensures Complete(a + b) == Complete(a) + Complete(b)
    decreases |b|
  {
    if b == [] {
      assert a + b == a;
    } else {
      assert (a + b)[..|a + b| - 1] == a + b[..|b| - 1];
      CompleteAppend(a, b[..|b| - 1]);
    }
  }

  /** `dropna` keeps multiplicity: a complete row survives as often as it
      occurs, an incomplete one never. */
  lemma {:induction false} CompleteCount(cands: seq<Candidate>)
    ensures forall c :: multiset(Complete(cands))[c] == if IsComplete(c) then multiset(cands)[c] else 0
  {
    if cands != [] {
      var init := cands[..|cands| - 1];
      assert cands == init + [cands[|cands| - 1]];
      CompleteCount(init);
    }
  }

  predicate SortedByRank(rs: seq<Ranked>)
  {
    forall i, j :: 0 <= i < j < |rs| ==> rs[i].rank <= rs[j].rank
  }

  function InsertByRank(x: Ranked, rs: seq<Ranked>): (r: seq<Ranked>)
    requires SortedByRank(rs)
    ensures SortedByRank(r)
    ensures multiset(r) == multiset(rs) + multiset{x}
  {
    if rs == [] || x.rank <= rs[0].rank then
      ConsSorted(x, rs);
      [x] + rs
    else
      var tail := InsertByRank(x, rs[1..]);
      assert rs == [rs[0]] + rs[1..];
      LowerBoundKept(rs[0], tail, rs[1..], x);
      ConsSorted(rs[0], tail);
      [rs[0]] + tail
  }

  lemma ConsSorted(a: Ranked, rs: seq<Ranked>)
    requires SortedByRank(rs)
    requires forall k :: 0 <= k < |rs| ==> a.rank <= rs[k].rank
    ensures SortedByRank([a] + rs)
  {
    var r := [a] + rs;
    forall i, j | 0 <= i < j < |r| ensures r[i].rank <= r[j].rank {
      if i > 0 {
        assert r[i] == rs[i - 1] && r[j] == rs[j - 1];
      } else {
        assert r[j] == rs[j - 1];
      }
    }
  }

  /** A bound below every element and below `x` stays below the elements of
      any arrangement of them. */
  lemma LowerBoundKept(a: Ranked, tail: seq<Ranked>, rest: seq<Ranked>, x: Ranked)
    requires multiset(tail) == multiset(rest) + multiset{x}
    requires forall k :: 0 <= k < |rest| ==> a.rank <= rest[k].rank
    requires a.rank <= x.rank
    ensures forall k :: 0 <= k < |tail| ==> a.rank <= tail[k].rank
  {
    forall k | 0 <= k < |tail| ensures a.rank <= tail[k].rank {
      assert tail[k] in multiset(tail);
      if tail[k] != x {
        assert tail[k] in multiset(rest);
      }
    }
  }

  /** `sort_values("Flexibility_Rank")`. */
  function SortByRank(rs: seq<Ranked>): (r: seq<Ranked>)
    ensures SortedByRank(r)
    ensures multiset(r) == multiset(rs)
  {
    if rs == [] then []
    else
      assert rs == [rs[0]] + rs[1..];
      InsertByRank(rs[0], SortByRank(rs[1..]))
  }

  /** The scored rows `rank_clients` ranks. */
  function ScoredRows(cands: seq<Candidate>): seq<Scored>
  {
    PenaliseAll(Normalise(Complete(cands)))
  }

  /** `rank_clients`: the ranked rows, ascending by rank, never more than
      the clients handed in and each one of them. */
  function RankClients(cands: seq<Candidate>): (r: seq<Ranked>)
    ensures SortedByRank(r)
    ensures |r| <= |cands|
    ensures forall i :: 0 <= i < |r| ==> r[i].scored.cand in cands
  {
    var out := SortByRank(AssignRanks(ScoredRows(cands)));
    SortedRowsFromCandidates(cands, out);
    out
  }

  /** Any arrangement of the ranked rows holds at most one row per client
      handed in, each carrying one of them. */
  lemma SortedRowsFromCandidates(cands: seq<Candidate>, out: seq<Ranked>)
    requires multiset(out) == multiset(AssignRanks(ScoredRows(cands)))
    ensures |out| <= |cands|
    ensures forall i :: 0 <= i < |out| ==> out[i].scored.cand in cands
  {
    var cs := Complete(cands);
    var ss := ScoredRows(cands);
    var ranks := AssignRanks(ss);
    var ns := Normalise(cs);
    assert |ns| <= |cs| by {
      if |cs| > 0 && !ZeroSpread(cs) { } else { }
    }
    assert |out| == |multiset(out)| == |multiset(ranks)| == |ranks| == |ns|;
    forall i | 0 <= i < |out| ensures out[i].scored.cand in cands {
      assert out[i] in multiset(ranks);
      var k :| 0 <= k < |ranks| && ranks[k] == out[i];
      assert k < |ns| <= |cs|;
      assert ss[k] == Penalise(ns[k]);
      assert ns[k].cand == cs[k];
      CompleteFrom(cands, k);
    }
  }

  /** weekend_weekday.py's `rank_clients(df, period_label)`: every row carries the label. */
  function RankPeriod(cands: seq<Candidate>, periodLabel: string): (r: seq<Labelled>)
    ensures |r| == |RankClients(cands)|
    ensures forall i :: 0 <= i < |r| ==> r[i].period == periodLabel && r[i].ranked == RankClients(cands)[i]
  {
    var ranked := RankClients(cands);
    seq(|ranked|, i requires 0 <= i < |ranked| => Labelled(ranked[i], periodLabel))
  }

  lemma ScaleRange(x: real, lo: real, hi: real)
    requires lo < hi && lo <= x <= hi
    ensures 0.0 <= Scale(x, lo, hi) <= 1.0
    ensures x == lo ==> Scale(x, lo, hi) == 0.0
    ensures x == hi ==> Scale(x, lo, hi) == 1.0
  {
    DivAtMost(x - lo, hi - lo, 1.0);
    DivAtLeast(x - lo, hi - lo, 0.0);
    if x == hi {
      DivAtLeast(x - lo, hi - lo, 1.0);
    }
  }

  lemma ScaleMonotone(x: real, y: real, lo: real, hi: real)
    requires lo < hi && x <= y
    ensures Scale(x, lo, hi) <= Scale(y, lo, hi)
  {
    DivAtMost(x - lo, hi - lo, Scale(y, lo, hi));
  }

  /** Every normalised score, and so their mean, lies in [0, 1]. */
  lemma NormsInRange(cs: seq<Candidate>, i: int)
    requires AllComplete(cs) && 0 <= i < |Normalise(cs)|
    ensures var s := Normalise(cs)[i];
      && 0.0 <= s.lfNorm <= 1.0 && 0.0 <= s.lviNorm <= 1.0 && 0.0 <= s.dlssNorm <= 1.0
      && s.index == BaseIndex(s) && 0.0 <= s.index <= 1.0
      && s.reason == Normal
  {
    var lf, lvi, dlss := LfValues(cs), LviValues(cs), DlssValues(cs);
    ScaleRange(lf[i], Min(lf), Max(lf));
    ScaleRange(lvi[i], Min(lvi), Max(lvi));
    ScaleRange(dlss[i], Min(dlss), Max(dlss));
  }

  /** The extremes of the cohort: the smallest LF (and DLSS) scores 1 and
      the largest 0; the smallest LVI scores 0 and the largest 1. */
  lemma NormExtremes(cs: seq<Candidate>, i: int)
    requires AllComplete(cs) && 0 <= i < |Normalise(cs)|
    ensures var s := Normalise(cs)[i];
      && (cs[i].lf.value == Min(LfValues(cs)) ==> s.lfNorm == 1.0)
      && (cs[i].lf.value == Max(LfValues(cs)) ==> s.lfNorm == 0.0)
      && (cs[i].lvi.value == Min(LviValues(cs)) ==> s.lviNorm == 0.0)
      && (cs[i].lvi.value == Max(LviValues(cs)) ==> s.lviNorm == 1.0)
      && (cs[i].dlss.value == Min(DlssValues(cs)) ==> s.dlssNorm == 1.0)
      && (cs[i].dlss.value == Max(DlssValues(cs)) ==> s.dlssNorm == 0.0)
  {
    var lf, lvi, dlss := LfValues(cs), LviValues(cs), DlssValues(cs);
    ScaleRange(lf[i], Min(lf), Max(lf));
    ScaleRange(lvi[i], Min(lvi), Max(lvi));
    ScaleRange(dlss[i], Min(dlss), Max(dlss));
  }

  /** The direction of each score: a higher LF or DLSS never scores higher,
      a higher LVI never scores lower. */
  lemma NormMonotone(cs: seq<Candidate>, i: int, j: int)
    requires AllComplete(cs) && 0 <= i < |Normalise(cs)| && 0 <= j < |Normalise(cs)|
    ensures var a, b := Normalise(cs)[i], Normalise(cs)[j];
      && (cs[i].lf.value <= cs[j].lf.value ==> a.lfNorm >= b.lfNorm)
      && (cs[i].lvi.value <= cs[j].lvi.value ==> a.lviNorm <= b.lviNorm)
      && (cs[i].dlss.value <= cs[j].dlss.value ==> a.dlssNorm >= b.dlssNorm)
  {
    var lf, lvi, dlss := LfValues(cs), LviValues(cs), DlssValues(cs);
    if lf[i] <= lf[j] { ScaleMonotone(lf[i], lf[j], Min(lf), Max(lf)); }
    if lvi[i] <= lvi[j] { ScaleMonotone(lvi[i], lvi[j], Min(lvi), Max(lvi)); }
    if dlss[i] <= dlss[j] { ScaleMonotone(dlss[i], dlss[j], Min(dlss), Max(dlss)); }
  }

  /** The off-peak rule: the reason is "already in off-peak" exactly when
      a peak ratio below 0.3 is present, and then (only then) the index is
      0.7 times the mean of the scores; the index stays in [0, 1]. */
  predicate OffPeakRuleHolds(s: Scored)
  {
    && (s.reason == AlreadyOffPeak <==> s.cand.peakRatio.Some? && s.cand.peakRatio.value < 0.3)
    && s.index == (if s.reason == AlreadyOffPeak then 0.7 * BaseIndex(s) else BaseIndex(s))
    && 0.0 <= s.index <= 1.0
  }

  /** Every row that reaches the ranking obeys the off-peak rule. */
  lemma PenaltyRule(cands: seq<Candidate>, i: int)
    requires 0 <= i < |ScoredRows(cands)|
    ensures OffPeakRuleHolds(ScoredRows(cands)[i])
  {
    var cs := Complete(cands);
    var ns := Normalise(cs);
    NormsInRange(cs, i);
    var n := ns[i];
    assert ScoredRows(cands)[i] == Penalise(n);
  }

  /** Without a peak ratio (flexibility_pred.py) no row is penalised. */
  lemma NoPeakRatioNoPenalty(cands: seq<Candidate>, i: int)
    requires forall c :: c in cands ==> c.peakRatio.None?
    requires 0 <= i < |ScoredRows(cands)|
    ensures ScoredRows(cands)[i].reason == Normal
    ensures ScoredRows(cands)[i].index == BaseIndex(ScoredRows(cands)[i])
  {
    var cs := Complete(cands);
    assert cs[i] in cs;
    PenaltyRule(cands, i);
  }

  lemma {:induction false} CountAboveMonotone(ss: seq<Scored>, a: real, b: real)
    requires a <= b
    ensures CountAbove(ss, b) <= CountAbove(ss, a)
  {
    if ss != [] {
      CountAboveMonotone(ss[..|ss| - 1], a, b);
    }
  }

  /** A row above `a` is counted for `a` but not for its own index. */
  lemma {:induction false} CountAboveStrict(ss: seq<Scored>, a: real, k: int)
    requires 0 <= k < |ss| && a < ss[k].index
    ensures CountAbove(ss, ss[k].index) < CountAbove(ss, a)
  {
    var init := ss[..|ss| - 1];
    if k == |ss| - 1 {
      CountAboveMonotone(init, a, ss[k].index);
    } else {
      assert init[k] == ss[k];
      CountAboveStrict(init, a, k);
    }
  }

  /** A row is never above its own index, so no rank exceeds the row count. */
  lemma {:induction false} CountAboveOwnIndex(ss: seq<Scored>, k: int)
    requires 0 <= k < |ss|
    ensures CountAbove(ss, ss[k].index) < |ss|
  {
    var init := ss[..|ss| - 1];
    if k < |ss| - 1 {
      assert init[k] == ss[k];
      CountAboveOwnIndex(init, k);
    }
  }

  lemma {:induction false} CountAboveNone(ss: seq<Scored>, x: real)
    requires forall i :: 0 <= i < |ss| ==> ss[i].index <= x
    ensures CountAbove(ss, x) == 0
  {
    if ss != [] {
      CountAboveNone(ss[..|ss| - 1], x);
    }
  }

  /** Competition ranking: ranks lie in 1..n, equal indices share a rank and
      a larger index has a strictly smaller rank. */
  lemma RankOrder(ss: seq<Scored>, i: int, j: int)
    requires 0 <= i < |ss| && 0 <= j < |ss|
    ensures var r := AssignRanks(ss);
      && 1 <= r[i].rank <= |ss|
      && (ss[i].index == ss[j].index <==> r[i].rank == r[j].rank)
      && (ss[i].index > ss[j].index <==> r[i].rank < r[j].rank)
  {
    CountAboveOwnIndex(ss, i);
    if ss[i].index > ss[j].index {
      CountAboveStrict(ss, ss[j].index, i);
    } else if ss[i].index < ss[j].index {
      CountAboveStrict(ss, ss[i].index, j);
    }
  }

  /** The row with the largest index is ranked 1. */
  lemma TopRankIsOne(ss: seq<Scored>)
    requires |ss| > 0
    ensures exists i :: 0 <= i < |ss| && AssignRanks(ss)[i].rank == 1
  {
    var xs := seq(|ss|, i requires 0 <= i < |ss| => ss[i].index);
    var m := Max(xs);
    var k :| 0 <= k < |xs| && xs[k] == m;
    assert forall i :: 0 <= i < |ss| ==> ss[i].index == xs[i];
    CountAboveNone(ss, m);
    assert AssignRanks(ss)[k].rank == 1;
  }

  /** How many ranked rows have an index strictly above `x`. */
  function CountRankedAbove(rs: seq<Ranked>, x: real): nat
  {
    if rs == [] then 0
    else CountRankedAbove(rs[..|rs| - 1], x) + (if rs[|rs| - 1].scored.index > x then 1 else 0)
  }

  lemma {:induction false} CountsAgree(rs: seq<Ranked>, ss: seq<Scored>, x: real)
    requires |rs| == |ss| && forall i :: 0 <= i < |rs| ==> rs[i].scored == ss[i]
    ensures CountRankedAbove(rs, x) == CountAbove(ss, x)
  {
    if rs != [] {
      CountsAgree(rs[..|rs| - 1], ss[..|ss| - 1], x);
    }
  }

  lemma {:induction false} CountRankedAppend(u: seq<Ranked>, v: seq<Ranked>, x: real)
    ensures CountRankedAbove(u + v, x) == CountRankedAbove(u, x) + CountRankedAbove(v, x)
    decreases |v|
  {
    if v == [] {
      assert u + v == u;
    } else {
      assert (u + v)[..|u + v| - 1] == u + v[..|v| - 1];
      CountRankedAppend(u, v[..|v| - 1], x);
    }
  }

  /** Reordering the rows does not change how many lie above a value. */
  lemma {:induction false} CountRankedPermutation(a: seq<Ranked>, b: seq<Ranked>, x: real)
    requires multiset(a) == multiset(b)
    ensures CountRankedAbove(a, x) == CountRankedAbove(b, x)
    decreases |a|
  {
    if a == [] {
      assert |b| == |multiset(b)| == 0;
    } else {
      var y := a[|a| - 1];
      var init := a[..|a| - 1];
      assert a == init + [y];
      assert multiset(init) == multiset(a) - multiset{y};
      assert y in multiset(b);
      var k :| 0 <= k < |b| && b[k] == y;
      var rest := RemoveAt(b, k);
      CountRankedPermutation(init, rest, x);
      CountRankedAppend(init, [y], x);
      assert [y][..0] == [];
    }
  }

  /** `b` without its `k`-th row. */
  lemma RemoveAt(b: seq<Ranked>, k: int) returns (rest: seq<Ranked>)
    requires 0 <= k < |b|
    ensures multiset(rest) == multiset(b) - multiset{b[k]}
    ensures forall x :: CountRankedAbove(b, x) == CountRankedAbove(rest, x) + (if b[k].scored.index > x then 1 else 0)
  {
    rest := b[..k] + b[k + 1..];
    assert b == b[..k] + [b[k]] + b[k + 1..];
    assert multiset(b) == multiset(b[..k]) + multiset{b[k]} + multiset(b[k + 1..]);
    forall x ensures CountRankedAbove(b, x) == CountRankedAbove(rest, x) + (if b[k].scored.index > x then 1 else 0) {
      CountRankedAppend(b[..k] + [b[k]], b[k + 1..], x);
      CountRankedAppend(b[..k], [b[k]], x);
      CountRankedAppend(b[..k], b[k + 1..], x);
      assert [b[k]][..0] == [];
    }
  }

  /** Each output row of `rank_clients` is one of the ranked scored rows. */
  lemma OutputRowSource(cands: seq<Candidate>, i: int) returns (k: int)
    requires 0 <= i < |RankClients(cands)|
    ensures 0 <= k < |ScoredRows(cands)|
    ensures RankClients(cands)[i] == AssignRanks(ScoredRows(cands))[k]
  {
    var ranks := AssignRanks(ScoredRows(cands));
    var out := RankClients(cands);
    assert out[i] in multiset(out);
    k :| 0 <= k < |ranks| && ranks[k] == out[i];
  }

  /** The output of `rank_clients`: ordered by rank, one row per ranked
      client, each rank one more than the number of output rows with a
      strictly larger index, ties sharing a rank and a larger index getting
      a strictly smaller one, every row obeying the off-peak rule. */
  lemma RankClientsOutput(cands: seq<Candidate>)
    ensures var out := RankClients(cands);
      && SortedByRank(out)
      && |out| == |ScoredRows(cands)|
      && (forall i :: 0 <= i < |out| ==> out[i].rank == 1 + CountRankedAbove(out, out[i].scored.index))
      && (forall i :: 0 <= i < |out| ==> OffPeakRuleHolds(out[i].scored))
  {
    var ss := ScoredRows(cands);
    var ranks := AssignRanks(ss);
    var out := RankClients(cands);
    assert |out| == |multiset(out)| == |multiset(ranks)| == |ranks|;
    forall i | 0 <= i < |out|
      ensures out[i].rank == 1 + CountRankedAbove(out, out[i].scored.index)
      ensures OffPeakRuleHolds(out[i].scored)
    {
      var k := OutputRowSource(cands, i);
      CountsAgree(ranks, ss, ss[k].index);
      CountRankedPermutation(ranks, out, ss[k].index);
      PenaltyRule(cands, k);
    }
  }

  /** In the output, equal indices share a rank and a larger index has a
      strictly smaller rank. */
  lemma RankClientsOrder(cands: seq<Candidate>, i: int, j: int)
    requires 0 <= i < |RankClients(cands)| && 0 <= j < |RankClients(cands)|
    ensures var out := RankClients(cands);
      && 1 <= out[i].rank <= |out|
      && (out[i].scored.index == out[j].scored.index <==> out[i].rank == out[j].rank)
      && (out[i].scored.index > out[j].scored.index <==> out[i].rank < out[j].rank)
  {
    RankClientsOutput(cands);
    var k := OutputRowSource(cands, i);
    var l := OutputRowSource(cands, j);
    RankOrder(ScoredRows(cands), k, l);
  }

  /** Nothing is ranked exactly when no client is complete or some metric
      has no spread across the complete clients. */
  lemma RankClientsEmptyIff(cands: seq<Candidate>)
    ensures var cs := Complete(cands);
      RankClients(cands) == [] <==> |cs| == 0 || ZeroSpread(cs)
  {
    RankClientsOutput(cands);
  }

  /** A single complete client is always dropped: every metric has zero spread. */
  lemma SingleClientDropped(cands: seq<Candidate>)
    requires |Complete(cands)| == 1
    ensures RankClients(cands) == []
  {
    var cs := Complete(cands);
    assert Min(LfValues(cs)) == LfValues(cs)[0] == Max(LfValues(cs));
    RankClientsEmptyIff(cands);
  }

  function ExampleRow(index: real): Scored
  {
    Scored(Candidate("", None, None, None, None), 0.0, 0.0, 0.0, index, Normal)
  }

  /** Indices 0.9, 0.9, 0.5 are ranked 1, 1, 3: ties share the lowest rank
      and the next rank is skipped. */
  lemma CompetitionRankingExample()
    ensures var r := AssignRanks([ExampleRow(0.9), ExampleRow(0.9), ExampleRow(0.5)]);
      r[0].rank == 1 && r[1].rank == 1 && r[2].rank == 3
  {
    var ss := [ExampleRow(0.9), ExampleRow(0.9), ExampleRow(0.5)];
    assert ss[..2] == [ExampleRow(0.9), ExampleRow(0.9)];
    assert ss[..2][..1] == [ExampleRow(0.9)];
    assert ss[..2][..1][..0] == [];
    assert CountAbove(ss[..2][..1], 0.9) == 0 && CountAbove(ss[..2][..1], 0.5) == 1;
    assert CountAbove(ss[..2], 0.9) == 0 && CountAbove(ss[..2], 0.5) == 2;
    assert CountAbove(ss, 0.9) == 0 && CountAbove(ss, 0.5) == 2;
  }

  /** A period with no clients has an empty ranking. */
  lemma RankPeriodEmpty(periodLabel: string)
    ensures RankPeriod([], periodLabel) == []
  {
    assert Complete([]) == [];
  }
}
