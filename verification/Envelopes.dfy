/** The flat and the nested envelope: every observation accounted for, and the same store from either. */
module Envelopes {
  import opened Types
  import opened Batches
  import Pricing
  import History
  import Tenancy
  import opened Writes
  import opened IngestSchema
  import opened Delivery
  import Router

  // ---------------------------------------------------------------- accounting

  lemma {:induction false} StartedPairs(traces: seq<Trace>)
    requires forall i, j :: 0 <= i < |traces| && 0 <= j < |traces[i].observations|
               ==> traces[i].observations[j].startedAt.Some?
    ensures forall i :: 0 <= i < |NestedPairs(traces)| ==> StartOf(NestedPairs(traces)[i]).Some?
    decreases |traces|
  {
    if traces != [] {
      var init := traces[..|traces| - 1];
      assert forall i :: 0 <= i < |init| ==> init[i] == traces[i];
      StartedPairs(init);
    }
  }

  lemma {:induction false} EveryPairCounted(pairs: seq<Pair>, project: Id, req: Request)
    requires forall i :: 0 <= i < |pairs| ==> StartOf(pairs[i]).Some?
    ensures |AcceptedRows(pairs, project, req.now, req.book)| + RejectedCount(pairs, req.now) == |pairs|
    decreases |pairs|
  {
    if pairs != [] {
      EveryPairCounted(pairs[..|pairs| - 1], project, req);
    }
  }

  /** Of a normalised batch no observation vanishes: accepted plus rejected is the batch's own count. */
  lemma BatchIsAccounted(req: Request, raw: Batch, now: Time)
    requires req.batch == Backfilled(raw, now)
    ensures |ProposedRows(req)| + RejectedCount(Pairs(req.batch), req.now) == ObservationCount(raw)
    ensures var r := Router.Reply(req);
            r.Accepted? ==> r.observations + r.rejectedObservations == ObservationCount(raw)
                            && r.scores + r.rejectedScores == |raw.scores|
  {
    BackfillCompletes(raw, now);
    var b := req.batch;
    StartedPairs(b.traces);
    CountsThePairs(b.traces);
    var nested := NestedPairs(b.traces);
    forall i | 0 <= i < |Pairs(b)| ensures StartOf(Pairs(b)[i]).Some? {
      assert Pairs(b)[i] == if i < |nested| then nested[i] else (b.observations[i - |nested|], None);
    }
    EveryPairCounted(Pairs(b), req.project, req);
  }

  lemma {:induction false} NestedCountJoin(a: seq<Trace>, b: seq<Trace>)
    ensures NestedCount(a + b) == NestedCount(a) + NestedCount(b)
    decreases |b|
  {
    if b == [] {
      assert a + b == a;
    } else {
      assert (a + b)[..|a + b| - 1] == a + b[..|b| - 1];
      NestedCountJoin(a, b[..|b| - 1]);
    }
  }

  /** Of a request body, in either envelope or both, nothing vanishes: the reply accounts for every trace, every
      observation sent nested, flat or as an event of any unrecognised kind, and every score. */
  lemma NothingVanishes(body: Body, req: Request, now: Time)
    requires Recognised(body) && req.batch == Backfilled(Enveloped(body).batch, now)
    ensures var r, events := Router.Reply(req), EventsOf(body);
            r.Accepted? ==>
              && r.traces == |body.traces.GetOr([])| + |Positions(events, AsTrace)|
              && r.observations + r.rejectedObservations
                 == NestedCount(body.traces.GetOr([])) + NestedCount(Picked(events, AsTrace))
                    + |body.observations.GetOr([])| + |Positions(events, AsObservation)|
              && r.scores + r.rejectedScores == |body.scores.GetOr([])| + |Positions(events, AsScore)|
  {
    var events := EventsOf(body);
    BatchIsAccounted(req, Enveloped(body).batch, now);
    NestedCountJoin(body.traces.GetOr([]), Picked(events, AsTrace));
    PickedCount(events, AsTrace);
    PickedCount(events, AsObservation);
    PickedCount(events, AsScore);
  }

  // ---------------------------------------------------------------- one batch, two envelopes

  ghost predicate Carries(traces: seq<Trace>, o: Obs) {
    exists i :: 0 <= i < |traces| && o in traces[i].observations
  }

  function Bare(traces: seq<Trace>): seq<Trace> {
    seq(|traces|, i requires 0 <= i < |traces| => traces[i].(observations := []))
  }

  /** The flat list carries exactly the observations nested in the traces, in any order. */
  ghost predicate SameObservations(flat: seq<Obs>, traces: seq<Trace>) {
    |flat| == NestedCount(traces) && forall o :: o in flat <==> Carries(traces, o)
  }

  /** Traces with explicit starts, equal ids sharing one, whose observations name the trace they are in. */
  predicate Explicit(traces: seq<Trace>) {
    && (forall i :: 0 <= i < |traces| ==> traces[i].startedAt.Some?)
    && (forall i, j :: 0 <= i < |traces| && 0 <= j < |traces| && traces[i].id == traces[j].id
          ==> traces[i].startedAt == traces[j].startedAt)
    && (forall i, j :: 0 <= i < |traces| && 0 <= j < |traces[i].observations|
          ==> traces[i].observations[j].traceId == Some(traces[i].id))
  }

  lemma {:induction false} StartsOf(traces: seq<Trace>, i: nat)
    requires i < |traces|
    requires forall a, b :: 0 <= a < |traces| && 0 <= b < |traces| && traces[a].id == traces[b].id
               ==> traces[a].startedAt == traces[b].startedAt
    ensures Lookup(Starts(traces), traces[i].id) == Some(traces[i].startedAt)
    decreases |traces|
  {
    var init := traces[..|traces| - 1];
    assert forall a :: 0 <= a < |init| ==> init[a] == traces[a];
    if i < |init| {
      StartsOf(init, i);
    }
  }

  lemma BareStarts(traces: seq<Trace>, now: Time)
    requires Explicit(traces)
    ensures BackfilledTraces(Bare(traces), now) == Bare(traces)
    ensures forall i :: 0 <= i < |traces|
              ==> BackfilledTraces(traces, now)[i].startedAt == traces[i].startedAt
                  && BackfilledTraces(traces, now)[i].id == traces[i].id
                  && BackfilledTraces(traces, now)[i].about == traces[i].about
                  && BackfilledTraces(traces, now)[i].endedAt == traces[i].endedAt
  {
    forall i | 0 <= i < |traces| ensures BackfilledTrace(Bare(traces)[i], now) == Bare(traces)[i] {
      assert FillAll([], traces[i].id, TraceStart(Bare(traces)[i], now)) == [];
    }
  }

  /** Both ways of backfilling complete an observation alike. */
  lemma FilledAlike(traces: seq<Trace>, i: nat, j: nat, now: Time)
    requires Explicit(traces) && i < |traces| && j < |traces[i].observations|
    ensures FillFlat(traces[i].observations[j], Starts(Bare(traces)), now)
         == FillNested(traces[i].observations[j], traces[i].id, TraceStart(traces[i], now))
  {
    var bare := Bare(traces);
    StartsOf(bare, i);
    assert traces[i].observations[j].traceId == Some(bare[i].id);
  }

  lemma {:induction false} NestedPairsAre(traces: seq<Trace>, pair: Pair)
    ensures pair in NestedPairs(traces)
            <==> exists i, j :: 0 <= i < |traces| && 0 <= j < |traces[i].observations|
                                && pair == (traces[i].observations[j], Some(traces[i]))
    decreases |traces|
  {
    if traces != [] {
      var init, last := traces[..|traces| - 1], traces[|traces| - 1];
      NestedPairsAre(init, pair);
      assert forall i :: 0 <= i < |traces| ==> traces[i] == (if i < |init| then init[i] else last);
      if pair in PairsOf(last) {
        var j :| 0 <= j < |last.observations| && PairsOf(last)[j] == pair;
        assert pair == (traces[|init|].observations[j], Some(traces[|init|]));
      }
      if i, j :| 0 <= i < |traces| && 0 <= j < |traces[i].observations| && pair == (traces[i].observations[j], Some(traces[i])) {
        if i == |init| {
          assert PairsOf(last)[j] == pair;
        } else {
          assert pair == (init[i].observations[j], Some(init[i]));
        }
      }
    }
  }

  lemma {:induction false} RowsAre(pairs: seq<Pair>, project: Id, now: Time, book: Pricing.Book, r: ObsRow)
    ensures r in AcceptedRows(pairs, project, now, book)
            <==> exists pair :: pair in pairs && Accepts(pair, now) && r == MakeRow(pair, project, book)
    decreases |pairs|
  {
    if pairs != [] {
      var init, last := pairs[..|pairs| - 1], pairs[|pairs| - 1];
      RowsAre(init, project, now, book, r);
      assert forall pair :: pair in pairs <==> pair in init || pair == last;
    }
  }

  ghost predicate IsFlatForm(flat: Batch, nested: Batch) {
    && flat.traces == Bare(nested.traces)
    && nested.observations == []
    && SameObservations(flat.observations, nested.traces)
    && flat.scores == nested.scores && flat.sdkVersion == nested.sdkVersion
  }

  /** The row a completed observation becomes on its own. */
  ghost predicate FilledRow(o: Obs, req: Request, r: ObsRow) {
    Accepts((o, None), req.now) && r == MakeRow((o, None), req.project, req.book)
  }

  ghost predicate NestedYields(nested: Batch, now: Time, req: Request, r: ObsRow, i: int, j: int) {
    && 0 <= i < |nested.traces| && 0 <= j < |nested.traces[i].observations|
    && var trace := nested.traces[i];
       FilledRow(FillNested(trace.observations[j], trace.id, TraceStart(trace, now)), req, r)
  }

  ghost predicate FlatYields(flat: Batch, nested: Batch, now: Time, req: Request, r: ObsRow, k: int) {
    && 0 <= k < |flat.observations|
    && FilledRow(FillFlat(flat.observations[k], Starts(Bare(nested.traces)), now), req, r)
  }

  ghost function RowsFrom(batch: Batch, now: Time, req: Request): seq<ObsRow> {
    AcceptedRows(Pairs(Backfilled(batch, now)), req.project, req.now, req.book)
  }

  lemma NestedRow(nested: Batch, now: Time, req: Request, r: ObsRow)
    requires nested.observations == [] && Explicit(nested.traces)
    ensures r in RowsFrom(nested, now, req) <==> exists i, j :: NestedYields(nested, now, req, r, i, j)
  {
    var b := Backfilled(nested, now);
    RowsAre(Pairs(b), req.project, req.now, req.book, r);
    assert Pairs(b) == NestedPairs(b.traces);
    if pair :| pair in Pairs(b) && Accepts(pair, req.now) && r == MakeRow(pair, req.project, req.book) {
      NestedPairsAre(b.traces, pair);
      var i: nat, j: nat :| i < |b.traces| && j < |b.traces[i].observations| && pair == (b.traces[i].observations[j], Some(b.traces[i]));
      PairYields(nested, now, req, r, i, j);
    }
    if i, j :| NestedYields(nested, now, req, r, i, j) {
      PairYields(nested, now, req, r, i, j);
      NestedPairsAre(b.traces, (b.traces[i].observations[j], Some(b.traces[i])));
    }
  }

  /** The pair of a nested observation becomes the row its completed form becomes on its own. */
  lemma PairYields(nested: Batch, now: Time, req: Request, r: ObsRow, i: nat, j: nat)
    requires i < |nested.traces| && j < |nested.traces[i].observations|
    ensures var traces := BackfilledTraces(nested.traces, now);
            NestedYields(nested, now, req, r, i, j)
            <==> Accepts((traces[i].observations[j], Some(traces[i])), req.now)
                 && r == MakeRow((traces[i].observations[j], Some(traces[i])), req.project, req.book)
  {
  }

  lemma FlatRow(flat: Batch, nested: Batch, now: Time, req: Request, r: ObsRow)
    requires IsFlatForm(flat, nested) && Explicit(nested.traces)
    ensures r in RowsFrom(flat, now, req) <==> exists k :: FlatYields(flat, nested, now, req, r, k)
  {
    var b := Backfilled(flat, now);
    BareStarts(nested.traces, now);
    NoNestedPairs(nested.traces);
    assert b.traces == Bare(nested.traces);
    assert Pairs(b) == FlatPairs(b.observations);
    RowsAre(Pairs(b), req.project, req.now, req.book, r);
    if pair :| pair in Pairs(b) && Accepts(pair, req.now) && r == MakeRow(pair, req.project, req.book) {
      var k: nat :| k < |Pairs(b)| && Pairs(b)[k] == pair;
      assert FlatYields(flat, nested, now, req, r, k);
    }
    if k :| FlatYields(flat, nested, now, req, r, k) {
      assert Pairs(b)[k] == (FillFlat(flat.observations[k], Starts(Bare(nested.traces)), now), None);
    }
  }

  lemma {:induction false} NoNestedPairs(traces: seq<Trace>)
    ensures NestedPairs(Bare(traces)) == [] && NestedCount(Bare(traces)) == 0
    decreases |traces|
  {
    if traces != [] {
      var bare := Bare(traces);
      assert Bare(traces[..|traces| - 1]) == bare[..|bare| - 1];
      NoNestedPairs(traces[..|traces| - 1]);
    }
  }

  lemma SameRows(flat: Batch, nested: Batch, now: Time, req: Request, r: ObsRow)
    requires IsFlatForm(flat, nested) && Explicit(nested.traces)
    ensures r in RowsFrom(flat, now, req) <==> r in RowsFrom(nested, now, req)
  {
    FlatRow(flat, nested, now, req, r);
    NestedRow(nested, now, req, r);
    if k :| FlatYields(flat, nested, now, req, r, k) {
      var o := flat.observations[k];
      assert o in flat.observations;
      var i: nat :| i < |nested.traces| && o in nested.traces[i].observations;
      var j: nat :| j < |nested.traces[i].observations| && nested.traces[i].observations[j] == o;
      FilledAlike(nested.traces, i, j, now);
      assert NestedYields(nested, now, req, r, i, j);
    }
    if i, j :| NestedYields(nested, now, req, r, i, j) {
      var o := nested.traces[i].observations[j];
      FilledAlike(nested.traces, i, j, now);
      assert o in nested.traces[i].observations;
      assert Carries(nested.traces, o);
      var k: nat :| k < |flat.observations| && flat.observations[k] == o;
      assert FlatYields(flat, nested, now, req, r, k);
    }
  }

  // ---------------------------------------------------------------- the same rows store the same

  lemma {:induction false} SameInsert(m: map<ObsKey, ObsRow>, rows: seq<ObsRow>, key: ObsKey)
    requires RowConsistent(rows)
    ensures var r := Lookup(InsertObservations(m, rows), key);
            if key in m then r == Lookup(m, key)
            else if x :| x in rows && x.Key() == key then r == Some(x)
            else r == None
  {
    Tenancy.InsertAt(m, rows, key);
    History.InsertKeepsFirst(rows, key);
  }

  lemma SameRowsSameStore(m: map<ObsKey, ObsRow>, a: seq<ObsRow>, b: seq<ObsRow>)
    requires RowConsistent(a) && forall r :: r in a <==> r in b
    ensures InsertObservations(m, a) == InsertObservations(m, b)
  {
    forall key ensures Lookup(InsertObservations(m, a), key) == Lookup(InsertObservations(m, b), key) {
      SameInsert(m, a, key);
      SameInsert(m, b, key);
    }
    SameEverywhere(InsertObservations(m, a), InsertObservations(m, b));
  }

  lemma SameStatements(a: Batch, b: Batch)
    requires |a.traces| == |b.traces|
    requires forall i :: 0 <= i < |a.traces| ==>
               a.traces[i].id == b.traces[i].id && a.traces[i].startedAt == b.traces[i].startedAt
    ensures StatementsOk(a) <==> StatementsOk(b)
  {
    StatementsOkIff(a);
    StatementsOkIff(b);
  }

  lemma SameAdmission(flat: Batch, nested: Batch, now: Time)
    requires IsFlatForm(flat, nested) && Explicit(nested.traces)
    ensures ObservationCount(flat) == ObservationCount(nested)
    ensures Admissible(Backfilled(flat, now)) <==> Admissible(Backfilled(nested, now))
  {
    BareStarts(nested.traces, now);
    NoNestedPairs(nested.traces);
    BackfillCompletes(flat, now);
    BackfillCompletes(nested, now);
    SameStatements(Backfilled(flat, now), Backfilled(nested, now));
  }

  /** A flat batch and the nested batch with the same observations leave the same store behind. */
  lemma BatchesAgree(t: Tables, flat: Batch, nested: Batch, req: Request, now: Time)
    requires IsFlatForm(flat, nested) && Explicit(nested.traces)
    requires RowConsistent(ProposedRows(req.(batch := Backfilled(nested, now))))
    ensures Step(t, req.(batch := Backfilled(flat, now))) == Step(t, req.(batch := Backfilled(nested, now)))
    ensures ObservationCount(flat) == ObservationCount(nested)
  {
    var f, n := req.(batch := Backfilled(flat, now)), req.(batch := Backfilled(nested, now));
    SameAdmission(flat, nested, now);
    if Admissible(n.batch) {
      forall r ensures r in ProposedRows(f) <==> r in ProposedRows(n) {
        SameRows(flat, nested, now, req, r);
      }
      SameTraces(flat, nested, now);
      SameRowsSameStore(t.observations, ProposedRows(n), ProposedRows(f));
      SameSends(f, n);
      SameStubs(f, n);
      SameWrite(t, f, n);
    }
  }

  /** A body in the nested envelope alone. */
  predicate IsNested(body: Body) {
    body.events.Absent? && body.traces.Some? && body.observations.GetOr([]) == []
  }

  /** A body in the flat envelope alone, whose events carry the traces of a nested body without their
      observations, all those observations in any order, and its scores, interleaved anyhow. */
  ghost predicate IsFlattened(flat: Body, nested: Body, observations: seq<Obs>) {
    && flat.events.Listed?
    && flat.traces.GetOr([]) == [] && flat.observations.GetOr([]) == [] && flat.scores.GetOr([]) == []
    && flat.sdkVersion == nested.sdkVersion
    && Interleaves(flat.events.events, Bare(nested.traces.GetOr([])), observations, nested.scores.GetOr([]))
    && SameObservations(observations, nested.traces.GetOr([]))
  }

  lemma FlattenedIsFlatForm(flat: Body, nested: Body, observations: seq<Obs>)
    requires IsNested(nested) && IsFlattened(flat, nested, observations)
    ensures Enveloped(flat).Parsed? && Enveloped(nested).Parsed?
    ensures IsFlatForm(Enveloped(flat).batch, Enveloped(nested).batch)
    ensures Enveloped(nested).batch.traces == nested.traces.value
  {
    var traces, scores := nested.traces.value, nested.scores.GetOr([]);
    InterleavesIff(flat.events.events, Bare(traces), observations, scores);
    assert EventsOf(nested) == [] && traces + [] == traces && scores + [] == scores;
    assert [] + observations == observations && [] + Bare(traces) == Bare(traces) && [] + scores == scores;
  }

  /** A body sent as one flat stream of events leaves the same store behind as the nested body it flattens. */
  lemma FlatEqualsNested(t: Tables, flat: Body, nested: Body, observations: seq<Obs>, req: Request, now: Time)
    requires IsNested(nested) && IsFlattened(flat, nested, observations) && Explicit(nested.traces.value)
    requires RowConsistent(ProposedRows(req.(batch := Backfilled(Enveloped(nested).batch, now))))
    ensures Enveloped(flat).Parsed? && Enveloped(nested).Parsed?
    ensures Step(t, req.(batch := Backfilled(Enveloped(flat).batch, now)))
         == Step(t, req.(batch := Backfilled(Enveloped(nested).batch, now)))
    ensures ObservationCount(Enveloped(flat).batch) == ObservationCount(Enveloped(nested).batch)
  {
    FlattenedIsFlatForm(flat, nested, observations);
    BatchesAgree(t, Enveloped(flat).batch, Enveloped(nested).batch, req, now);
  }

  lemma SameTraces(flat: Batch, nested: Batch, now: Time)
    requires IsFlatForm(flat, nested) && Explicit(nested.traces)
    ensures var a, b := Backfilled(flat, now).traces, Backfilled(nested, now).traces;
            |a| == |b| && forall i :: 0 <= i < |a| ==> a[i].(observations := []) == b[i].(observations := [])
  {
    BareStarts(nested.traces, now);
  }

  lemma SameWrite(t: Tables, f: Request, n: Request)
    requires f == n.(batch := f.batch) && f.batch.scores == n.batch.scores
    requires Admissible(f.batch) && Admissible(n.batch) && Sends(f) == Sends(n)
    requires StubWindows(ProposedRows(f), f.project, ExplicitIds(f.batch))
          == StubWindows(ProposedRows(n), n.project, ExplicitIds(n.batch))
    requires InsertObservations(t.observations, ProposedRows(f)) == InsertObservations(t.observations, ProposedRows(n))
    ensures Write(t, f) == Write(t, n)
  {
    SendsOk(f);
    SendsOk(n);
  }

  lemma SameSends(f: Request, n: Request)
    requires f == n.(batch := f.batch) && f.batch.sdkVersion == n.batch.sdkVersion
    requires |f.batch.traces| == |n.batch.traces|
    requires forall i :: 0 <= i < |f.batch.traces|
               ==> f.batch.traces[i].(observations := []) == n.batch.traces[i].(observations := [])
    requires forall r :: r in ProposedRows(f) <==> r in ProposedRows(n)
    ensures Sends(f) == Sends(n) && ExplicitIds(f.batch) == ExplicitIds(n.batch)
  {
    var a, b := Sends(f), Sends(n);
    forall i | 0 <= i < |a| ensures a[i] == b[i] {
      SpanOfSameRows(ProposedRows(f), ProposedRows(n), RowKey(f.project, f.batch.traces[i].id));
      assert f.batch.traces[i].(observations := []) == n.batch.traces[i].(observations := []);
    }
    forall x ensures x in ExplicitIds(f.batch) <==> x in ExplicitIds(n.batch) {
      assert forall i :: 0 <= i < |f.batch.traces| ==> f.batch.traces[i].id == n.batch.traces[i].id;
    }
  }

  lemma SameStubs(f: Request, n: Request)
    requires f == n.(batch := f.batch) && ExplicitIds(f.batch) == ExplicitIds(n.batch)
    requires forall r :: r in ProposedRows(f) <==> r in ProposedRows(n)
    ensures StubWindows(ProposedRows(f), f.project, ExplicitIds(f.batch))
         == StubWindows(ProposedRows(n), n.project, ExplicitIds(n.batch))
  {
    var a, b := ProposedRows(f), ProposedRows(n);
    forall x ensures x in TraceIds(a) <==> x in TraceIds(b) {
      if x in TraceIds(a) {
        var r :| r in a && r.traceId == x;
        assert r in b;
      }
      if x in TraceIds(b) {
        var r :| r in b && r.traceId == x;
        assert r in a;
      }
    }
    forall x: Id ensures Span(a, RowKey(f.project, x)) == Span(b, RowKey(f.project, x)) {
      SpanOfSameRows(a, b, RowKey(f.project, x));
    }
  }
}
