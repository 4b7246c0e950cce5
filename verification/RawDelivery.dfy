/** Deliveries as clients send them: the validators backfill each batch when it arrives, by the clock of that moment. */
module RawDelivery {
  import opened Types
  import opened Batches
  import opened Writes
  import opened History
  import opened IngestSchema
  import opened Delivery
  import opened Replay

  /** The request the router sees. */
  function AsRouted(raw: Request): Request {
    raw.(batch := Backfilled(raw.batch, raw.now))
  }

  function AllAsRouted(raws: seq<Request>): seq<Request> {
    seq(|raws|, i requires 0 <= i < |raws| => AsRouted(raws[i]))
  }

  // ---------------------------------------------------------------- when the clock leaves no trace

  /** The trace carries a start, its own or a child's. */
  predicate TraceStamped(trace: Trace) {
    trace.startedAt.Some? || exists j :: 0 <= j < |trace.observations| && trace.observations[j].startedAt.Some?
  }

  /** Every trace carries a start, and every flat observation its own or the name of a trace of the batch. */
  predicate SelfStamped(raw: Batch) {
    && (forall i :: 0 <= i < |raw.traces| ==> TraceStamped(raw.traces[i]))
    && (forall i :: 0 <= i < |raw.observations| ==> FlatStamped(raw.observations[i], ExplicitIds(raw)))
  }

  predicate FlatStamped(o: Obs, traces: set<Id>) {
    o.startedAt.Some? || (o.traceId.Some? && o.traceId.value in traces)
  }

  lemma {:induction false} StartsKeys(traces: seq<Trace>, id: Id)
    ensures id in Starts(traces) <==> exists i :: 0 <= i < |traces| && traces[i].id == id
    ensures id in Starts(traces) ==> exists i :: 0 <= i < |traces| && Starts(traces)[id] == traces[i].startedAt
    decreases |traces|
  {
    if traces != [] {
      var init, last := traces[..|traces| - 1], traces[|traces| - 1];
      StartsKeys(init, id);
      assert forall i :: 0 <= i < |traces| ==> traces[i] == if i < |init| then init[i] else last;
      if id in Starts(init) && id != last.id {
        var i :| 0 <= i < |init| && Starts(init)[id] == init[i].startedAt;
        assert Starts(traces)[id] == traces[i].startedAt;
        var j :| 0 <= j < |init| && init[j].id == id;
        assert traces[j].id == id;
      }
    }
  }

  /** A backfilled batch gives a start to whatever names one of its traces, and to nothing else. */
  lemma StartsOfBackfilled(traces: seq<Trace>, now: Time, id: Id)
    ensures var starts := Starts(BackfilledTraces(traces, now));
            && (id in starts <==> exists i :: 0 <= i < |traces| && traces[i].id == id)
            && (id in starts ==> starts[id].Some?)
  {
    var filled := BackfilledTraces(traces, now);
    StartsKeys(filled, id);
    assert forall i :: 0 <= i < |traces| ==> filled[i].id == traces[i].id && filled[i].startedAt.Some?;
  }

  lemma StampedTraceIsTimeless(trace: Trace, a: Time, b: Time)
    requires TraceStamped(trace)
    ensures BackfilledTrace(trace, a) == BackfilledTrace(trace, b)
  {
    ChildStartIsEarliest(trace.observations);
  }

  lemma StampedIsTimeless(raw: Batch, a: Time, b: Time)
    requires SelfStamped(raw)
    ensures Backfilled(raw, a) == Backfilled(raw, b)
  {
    forall i | 0 <= i < |raw.traces| ensures BackfilledTrace(raw.traces[i], a) == BackfilledTrace(raw.traces[i], b) {
      StampedTraceIsTimeless(raw.traces[i], a, b);
    }
    var traces := BackfilledTraces(raw.traces, a);
    assert traces == BackfilledTraces(raw.traces, b);
    var starts := Starts(traces);
    forall i | 0 <= i < |raw.observations|
      ensures FillFlat(raw.observations[i], starts, a) == FillFlat(raw.observations[i], starts, b)
    {
      var o := raw.observations[i];
      if o.startedAt.None? {
        StartsOfBackfilled(raw.traces, a, o.traceId.value);
      }
    }
    assert FillAllFlat(raw.observations, starts, a) == FillAllFlat(raw.observations, starts, b);
  }

  lemma TimelessIsStamped(raw: Batch)
    requires Backfilled(raw, 0) == Backfilled(raw, 1)
    ensures SelfStamped(raw)
  {
    var x, y := Backfilled(raw, 0), Backfilled(raw, 1);
    forall i | 0 <= i < |raw.traces| ensures TraceStamped(raw.traces[i]) {
      ChildStartIsEarliest(raw.traces[i].observations);
      assert x.traces[i].startedAt == y.traces[i].startedAt;
    }
    forall i | 0 <= i < |raw.observations| ensures FlatStamped(raw.observations[i], ExplicitIds(raw)) {
      var o := raw.observations[i];
      assert x.observations[i].startedAt == y.observations[i].startedAt;
      if o.traceId.Some? {
        StartsOfBackfilled(raw.traces, 0, o.traceId.value);
        StartsOfBackfilled(raw.traces, 1, o.traceId.value);
      }
    }
  }

  /** Backfilling gives the same batch at every moment if and only if the batch stamps itself. */
  lemma BackfillIsTimelessIff(raw: Batch)
    ensures (forall a: Time, b: Time :: Backfilled(raw, a) == Backfilled(raw, b)) <==> SelfStamped(raw)
  {
    if SelfStamped(raw) {
      forall a: Time, b: Time ensures Backfilled(raw, a) == Backfilled(raw, b) {
        StampedIsTimeless(raw, a, b);
      }
    }
    if forall a: Time, b: Time :: Backfilled(raw, a) == Backfilled(raw, b) {
      TimelessIsStamped(raw);
    }
  }

  // ---------------------------------------------------------------- replaying raw batches

  ghost predicate AllSelfStamped(raws: seq<Request>) {
    forall i :: 0 <= i < |raws| ==> SelfStamped(raws[i].batch)
  }

  /** Whether a batch is written at all, and which traces it carries, does not depend on the clock. */
  lemma AdmissionIsTimeless(raw: Batch, a: Time, b: Time)
    ensures Admissible(Backfilled(raw, a)) <==> Admissible(Backfilled(raw, b))
    ensures ExplicitIds(Backfilled(raw, a)) == ExplicitIds(Backfilled(raw, b))
  {
    var x, y := Backfilled(raw, a), Backfilled(raw, b);
    BackfillCompletes(raw, a);
    BackfillCompletes(raw, b);
    StatementsOkIff(x);
    StatementsOkIff(y);
    assert forall i :: 0 <= i < |x.traces| ==> x.traces[i].id == y.traces[i].id;
  }

  /** Backfilled at any two moments, a batch differs in starts and observations alone. */
  lemma BackfillsResemble(g: Request, h: Request)
    requires Echoes(g, h)
    ensures Resembles(AsRouted(g), AsRouted(h))
  {
    AdmissionIsTimeless(g.batch, g.now, h.now);
  }

  /** Replaying raw batches, each backfilled afresh by the clock of its delivery, changes no column but updated_at if
      and only if the store has taken in every row the replay accepts, and for every trace the last start it is now
      given is the last one it was given before. */
  lemma RawReplayIsNoOp(g: seq<Request>, h: seq<Request>)
    requires Replays(g, h)
    ensures var x, y := AllAsRouted(g), AllAsRouted(h);
            Unmoved(Run(y), RunFrom(Run(y), x))
            <==> AllAbsorbed(Run(y), AllRows(x)) && forall k :: StartStands(x, y, k)
  {
    var x, y := AllAsRouted(g), AllAsRouted(h);
    forall i | 0 <= i < |g| ensures Resembles(x[i], y[i]) {
      BackfillsResemble(g[i], h[i]);
    }
    RehearsalIsNoOp(x, y);
  }

  /** When the batches stamp themselves the starts take care of themselves. */
  lemma StampedReplayIsNoOp(g: seq<Request>, h: seq<Request>)
    requires Replays(g, h) && AllSelfStamped(h)
    ensures var t := Run(AllAsRouted(h));
            Unmoved(t, RunFrom(t, AllAsRouted(g))) <==> AllAbsorbed(t, AllRows(AllAsRouted(g)))
  {
    var x, y := AllAsRouted(g), AllAsRouted(h);
    forall i | 0 <= i < |g| ensures Echoes(x[i], y[i]) {
      StampedIsTimeless(h[i].batch, g[i].now, h[i].now);
    }
    ReplaysRehearse(x, y);
    forall k ensures StartStands(x, y, k) {
      ReplaySaysTheSame(x, y, k, Start);
    }
    RawReplayIsNoOp(g, h);
  }

  // ---------------------------------------------------------------- when the clock leaves the observations alone

  /** The last trace of a batch with this id. */
  function LastOf(traces: seq<Trace>, id: Id): Option<Trace> {
    if traces == [] then None
    else if traces[|traces| - 1].id == id then Some(traces[|traces| - 1])
    else LastOf(traces[..|traces| - 1], id)
  }

  /** The observation carries a start, or inherits one that the client sent. */
  predicate FlatPlaced(o: Obs, traces: seq<Trace>) {
    o.startedAt.Some?
    || (o.traceId.Some? && LastOf(traces, o.traceId.value).Some? && TraceStamped(LastOf(traces, o.traceId.value).value))
  }

  /** No observation takes its start from the clock: a trace has a stamp or no observations, and an unstamped flat
      observation names a trace of the batch that has one. */
  predicate ObservationsStamped(raw: Batch) {
    && (forall i :: 0 <= i < |raw.traces| ==> TraceStamped(raw.traces[i]) || raw.traces[i].observations == [])
    && (forall i :: 0 <= i < |raw.observations| ==> FlatPlaced(raw.observations[i], raw.traces))
  }

  predicate SameBackfilled(x: Batch, y: Batch) {
    && x.observations == y.observations && |x.traces| == |y.traces|
    && forall i :: 0 <= i < |x.traces| ==> x.traces[i].observations == y.traces[i].observations
  }

  lemma {:induction false} StartsAreLast(traces: seq<Trace>, id: Id)
    ensures Lookup(Starts(traces), id)
         == if LastOf(traces, id).None? then None else Some(LastOf(traces, id).value.startedAt)
    decreases |traces|
  {
    if traces != [] {
      StartsAreLast(traces[..|traces| - 1], id);
    }
  }

  lemma {:induction false} LastOfBackfilled(traces: seq<Trace>, now: Time, id: Id)
    ensures var filled := LastOf(BackfilledTraces(traces, now), id);
            if LastOf(traces, id).None? then filled.None?
            else filled == Some(BackfilledTrace(LastOf(traces, id).value, now))
    decreases |traces|
  {
    if traces != [] {
      var all := BackfilledTraces(traces, now);
      assert BackfilledTraces(traces[..|traces| - 1], now) == all[..|all| - 1];
      LastOfBackfilled(traces[..|traces| - 1], now, id);
    }
  }

  /** What a flat observation inherits at a given moment. */
  lemma FlatStartAt(o: Obs, traces: seq<Trace>, now: Time)
    requires o.startedAt.None?
    ensures FillFlat(o, Starts(BackfilledTraces(traces, now)), now).startedAt ==
            Some(if o.traceId.Some? && LastOf(traces, o.traceId.value).Some?
                 then TraceStart(LastOf(traces, o.traceId.value).value, now) else now)
  {
    if o.traceId.Some? {
      StartsAreLast(BackfilledTraces(traces, now), o.traceId.value);
      LastOfBackfilled(traces, now, o.traceId.value);
    }
  }

  lemma TraceStartIsTimelessIff(trace: Trace, a: Time, b: Time)
    requires a != b
    ensures TraceStart(trace, a) == TraceStart(trace, b) <==> TraceStamped(trace)
  {
    ChildStartIsEarliest(trace.observations);
  }

  lemma NestedAlikeIff(trace: Trace, a: Time, b: Time)
    requires a != b
    ensures BackfilledTrace(trace, a).observations == BackfilledTrace(trace, b).observations
            <==> TraceStamped(trace) || trace.observations == []
  {
    TraceStartIsTimelessIff(trace, a, b);
    var x, y := BackfilledTrace(trace, a).observations, BackfilledTrace(trace, b).observations;
    if !TraceStamped(trace) && trace.observations != [] {
      assert x[0].startedAt != y[0].startedAt;
    }
  }

  lemma FlatAlikeIff(o: Obs, traces: seq<Trace>, a: Time, b: Time)
    requires a != b
    ensures FillFlat(o, Starts(BackfilledTraces(traces, a)), a) == FillFlat(o, Starts(BackfilledTraces(traces, b)), b)
            <==> FlatPlaced(o, traces)
  {
    if o.startedAt.None? {
      FlatStartAt(o, traces, a);
      FlatStartAt(o, traces, b);
      if o.traceId.Some? && LastOf(traces, o.traceId.value).Some? {
        TraceStartIsTimelessIff(LastOf(traces, o.traceId.value).value, a, b);
      }
    }
  }

  /** At two different moments a batch's observations come out alike if and only if none takes its start from the
      clock. */
  lemma ObservationsTimelessIff(raw: Batch, a: Time, b: Time)
    requires a != b
    ensures SameBackfilled(Backfilled(raw, a), Backfilled(raw, b)) <==> ObservationsStamped(raw)
  {
    var x, y := Backfilled(raw, a), Backfilled(raw, b);
    forall i | 0 <= i < |raw.traces|
      ensures x.traces[i].observations == y.traces[i].observations
              <==> TraceStamped(raw.traces[i]) || raw.traces[i].observations == []
    {
      NestedAlikeIff(raw.traces[i], a, b);
    }
    forall i | 0 <= i < |raw.observations|
      ensures x.observations[i] == y.observations[i] <==> FlatPlaced(raw.observations[i], raw.traces)
    {
      FlatAlikeIff(raw.observations[i], raw.traces, a, b);
    }
  }

  // ---------------------------------------------------------------- raw batches in any order

  /** What clients deliver: the project and the batch as sent. */
  function RawPayload(raw: Request): (Id, Batch) {
    (raw.project, raw.batch)
  }

  ghost function RawPayloads(raws: seq<Request>): set<(Id, Batch)> {
    set i | 0 <= i < |raws| :: RawPayload(raws[i])
  }

  ghost predicate AllObservationsStamped(raws: seq<Request>) {
    forall i :: 0 <= i < |raws| ==> ObservationsStamped(raws[i].batch)
  }

  lemma {:induction false} NestedResolveAlike(x: seq<Trace>, y: seq<Trace>)
    requires |x| == |y|
    requires forall i :: 0 <= i < |x| ==> x[i].observations == y[i].observations && x[i].id == y[i].id
    requires forall i, j :: 0 <= i < |x| && 0 <= j < |x[i].observations|
               ==> x[i].observations[j].startedAt.Some? && x[i].observations[j].traceId.Some?
    ensures AllResolved(NestedPairs(x)) == AllResolved(NestedPairs(y))
    decreases |x|
  {
    if x != [] {
      var n := |x| - 1;
      assert forall i :: 0 <= i < n ==> x[..n][i] == x[i] && y[..n][i] == y[i];
      NestedResolveAlike(x[..n], y[..n]);
      assert AllResolved(PairsOf(x[n])) == AllResolved(PairsOf(y[n]));
      ResolvedJoin(NestedPairs(x[..n]), PairsOf(x[n]));
      ResolvedJoin(NestedPairs(y[..n]), PairsOf(y[n]));
    }
  }

  lemma ResolvedJoin(a: seq<Pair>, b: seq<Pair>)
    ensures AllResolved(a + b) == AllResolved(a) + AllResolved(b)
  {
  }

  /** A batch whose observations carry their starts has one outline at every moment. */
  lemma OutlineIsTimeless(raw: Batch, a: Time, b: Time)
    requires ObservationsStamped(raw)
    ensures OutlineOf(Backfilled(raw, a)) == OutlineOf(Backfilled(raw, b))
  {
    var x, y := Backfilled(raw, a), Backfilled(raw, b);
    if a != b {
      ObservationsTimelessIff(raw, a, b);
    }
    AdmissionIsTimeless(raw, a, b);
    BackfillCompletes(raw, a);
    assert forall i :: 0 <= i < |x.traces| ==> x.traces[i].id == y.traces[i].id;
    NestedResolveAlike(x.traces, y.traces);
    ResolvedJoin(NestedPairs(x.traces), FlatPairs(x.observations));
    ResolvedJoin(NestedPairs(y.traces), FlatPairs(y.observations));
  }

  lemma SamePayloadsRouted(g: seq<Request>, h: seq<Request>)
    requires RawPayloads(g) <= RawPayloads(h) && AllObservationsStamped(g)
    ensures Payloads(AllAsRouted(g)) <= Payloads(AllAsRouted(h))
  {
    var x, y := AllAsRouted(g), AllAsRouted(h);
    forall p | p in Payloads(x) ensures p in Payloads(y) {
      var i :| 0 <= i < |x| && Payload(x[i]) == p;
      assert RawPayload(g[i]) in RawPayloads(h);
      var j :| 0 <= j < |h| && RawPayload(h[j]) == RawPayload(g[i]);
      OutlineIsTimeless(g[i].batch, g[i].now, h[j].now);
      assert Payload(y[j]) == p;
    }
  }

  /** Raw batches none of whose observations takes its start from the clock, delivered in any order and any number of
      times, agree on trace ids, windows, and which observations and scores are stored. */
  lemma RawOrderIndependent(g: seq<Request>, h: seq<Request>)
    requires RawPayloads(g) == RawPayloads(h) && AllObservationsStamped(g)
    requires AllPunctual(AllAsRouted(g)) && AllPunctual(AllAsRouted(h))
    ensures var t, u := Run(AllAsRouted(g)), Run(AllAsRouted(h));
            SameWindows(t, u) && t.observations.Keys == u.observations.Keys && t.scores.Keys == u.scores.Keys
  {
    forall i | 0 <= i < |h| ensures ObservationsStamped(h[i].batch) {
      assert RawPayload(h[i]) in RawPayloads(g);
      var j :| 0 <= j < |g| && RawPayload(g[j]) == RawPayload(h[i]);
    }
    SamePayloadsRouted(g, h);
    SamePayloadsRouted(h, g);
    OrderIndependent(AllAsRouted(g), AllAsRouted(h));
  }

  // ---------------------------------------------------------------- what the clock does

  /** A batch that is one trace without a start and without children. */
  predicate IsUnstamped(raw: Request) {
    && |raw.batch.traces| == 1 && raw.batch.observations == []
    && raw.batch.traces[0].startedAt.None? && raw.batch.traces[0].observations == []
  }

  lemma UnstampedTakesTheClock(t: Tables, raw: Request)
    requires IsUnstamped(raw)
    ensures var row := Lookup(Step(t, AsRouted(raw)).traces, RowKey(raw.project, raw.batch.traces[0].id));
            row.Some? && row.value.startedAt == raw.now
  {
    var filled := BackfilledTrace(raw.batch.traces[0], raw.now);
    assert AsRouted(raw).batch.traces == [filled];
    assert FillAll([], raw.batch.traces[0].id, raw.now) == [];
    SoleTrace(t, AsRouted(raw), filled);
  }

  lemma RunOfOne(t: Tables, req: Request)
    ensures Run([req]) == Step(EMPTY, req) && RunFrom(t, [req]) == Step(t, req)
  {
    assert [req][..0] == [];
  }

  /** Replaying it at another moment moves the stored start, so nothing less than self-stamping will do. */
  lemma UnstampedReplayMoves(g: Request, h: Request)
    requires IsUnstamped(h) && Echoes(g, h) && g.now != h.now
    ensures var t := Run(AllAsRouted([h])); !Unmoved(t, RunFrom(t, AllAsRouted([g])))
  {
    var t := Run([AsRouted(h)]);
    assert AllAsRouted([h]) == [AsRouted(h)] && AllAsRouted([g]) == [AsRouted(g)];
    RunOfOne(t, AsRouted(h));
    RunOfOne(t, AsRouted(g));
    UnstampedTakesTheClock(EMPTY, h);
    UnstampedTakesTheClock(t, g);
  }
}
