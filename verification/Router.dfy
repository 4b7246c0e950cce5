/** routers/ingest.py: the request handler and its bulk writes over a store changed in place. */
module Router {
  import opened Types
  import opened Batches
  import opened Pricing
  import opened Costs
  import opened Writes

  datatype Response =
    | TooLargeResponse
    | Failed
    | Accepted(traces: nat, observations: nat, scores: nat, rejectedObservations: nat, rejectedScores: nat)

  ghost function Reply(req: Request): Response {
    if TooLarge(req.batch) then TooLargeResponse
    else if !StatementsOk(req.batch) then Failed
    else
      var scores := ScoreRows(req.batch.scores, req.project, req.now);
      Accepted(|req.batch.traces|, |ProposedRows(req)|, |scores|, RejectedCount(Pairs(req.batch), req.now),
               |req.batch.scores| - |scores|)
  }

  /** A request of acceptable size fails exactly when a trace has no start or two of one 500-row slice share an
      id, and then it leaves the tables alone. */
  lemma FailsIff(t: Tables, req: Request)
    ensures Reply(req).Failed? <==>
      && !TooLarge(req.batch)
      && ((exists i :: 0 <= i < |req.batch.traces| && req.batch.traces[i].startedAt.None?)
          || exists i, j :: 0 <= i < j < |req.batch.traces| && i / CHUNK_ROWS == j / CHUNK_ROWS
                            && req.batch.traces[i].id == req.batch.traces[j].id)
    ensures !Reply(req).Accepted? ==> Step(t, req) == t
  {
    StatementsOkIff(req.batch);
  }

  const BARE: Trace := Trace(2, BLANK, Some(0), None, [])

  /** A batch that carries one trace twice, as a client sends it when a run starts and ends between two flushes. */
  lemma TraceSentTwiceFails(t: Tables, req: Request)
    requires req.batch == Batch([BARE, BARE], [], [], None)
    ensures Reply(req).Failed? && Step(t, req) == t
  {
    var traces := req.batch.traces;
    assert NestedCount(traces) == 0 by {
      assert traces[..1][..0] == [] && traces[..1][0] == BARE;
      assert NestedCount(traces[..1]) == 0;
    }
    assert traces[0].id == traces[1].id && 0 / CHUNK_ROWS == 1 / CHUNK_ROWS;
    FailsIff(t, req);
  }

  // ---------------------------------------------------------------- splitting a write into statements

  lemma {:induction false} UpsertInParts(t: map<RowKey, TraceRow>, a: seq<TraceSend>, b: seq<TraceSend>, now: Time)
    requires AllStarted(a) && AllStarted(b)
    ensures AllStarted(a + b) && UpsertTraces(UpsertTraces(t, a, now), b, now) == UpsertTraces(t, a + b, now)
    decreases |b|
  {
    if b == [] {
      assert a + b == a;
    } else {
      assert (a + b)[..|a + b| - 1] == a + b[..|b| - 1];
      UpsertInParts(t, a, b[..|b| - 1], now);
    }
  }

  lemma {:induction false} ObservationsInParts(t: map<ObsKey, ObsRow>, a: seq<ObsRow>, b: seq<ObsRow>)
    ensures InsertObservations(InsertObservations(t, a), b) == InsertObservations(t, a + b)
    decreases |b|
  {
    if b == [] {
      assert a + b == a;
    } else {
      assert (a + b)[..|a + b| - 1] == a + b[..|b| - 1];
      ObservationsInParts(t, a, b[..|b| - 1]);
    }
  }

  lemma {:induction false} ScoresInParts(t: map<RowKey, ScoreRow>, a: seq<ScoreRow>, b: seq<ScoreRow>)
    ensures InsertScores(InsertScores(t, a), b) == InsertScores(t, a + b)
    decreases |b|
  {
    if b == [] {
      assert a + b == a;
    } else {
      assert (a + b)[..|a + b| - 1] == a + b[..|b| - 1];
      ScoresInParts(t, a, b[..|b| - 1]);
    }
  }

  lemma StubsInParts(t: map<RowKey, TraceRow>, project: Id, a: map<Id, Window>, b: map<Id, Window>, now: Time)
    requires a.Keys !! b.Keys
    ensures InsertStubs(InsertStubs(t, project, a, now), project, b, now) == InsertStubs(t, project, a + b, now)
  {
    var once := InsertStubs(t, project, a, now);
    forall k ensures Lookup(InsertStubs(once, project, b, now), k) == Lookup(InsertStubs(t, project, a + b, now), k) {
      StubsAt(t, project, a, now, k);
      StubsAt(once, project, b, now, k);
      StubsAt(t, project, a + b, now, k);
    }
    SameEverywhere(InsertStubs(once, project, b, now), InsertStubs(t, project, a + b, now));
  }

  lemma NoStubs(t: map<RowKey, TraceRow>, project: Id, now: Time)
    ensures InsertStubs(t, project, map[], now) == t
  {
    assert StubKeys(project, map[]) == {};
  }

  // ---------------------------------------------------------------- the flattening pass

  lemma {:induction false} SpanIffNamed(rows: seq<ObsRow>, project: Id, t: Id)
    requires forall i :: 0 <= i < |rows| ==> rows[i].project == project
    ensures Span(rows, RowKey(project, t)).Some? <==> t in TraceIds(rows)
    decreases |rows|
  {
    if rows != [] {
      var init := rows[..|rows| - 1];
      SpanIffNamed(init, project, t);
      assert TraceIds(rows) == TraceIds(init) + {rows[|rows| - 1].traceId} by {
        assert rows == init + [rows[|rows| - 1]];
        forall x | x in TraceIds(rows) ensures x in TraceIds(init) + {rows[|rows| - 1].traceId} {
          var i :| 0 <= i < |rows| && rows[i].traceId == x;
          assert i < |init| ==> init[i].traceId == x;
        }
        forall x | x in TraceIds(init) ensures x in TraceIds(rows) {
          var i :| 0 <= i < |init| && init[i].traceId == x;
          assert rows[i].traceId == x;
        }
      }
    }
  }

  /** The dict of windows holds the span of every trace the rows touch, and nothing else. */
  ghost predicate Tracks(windows: map<Id, Window>, rows: seq<ObsRow>, project: Id) {
    forall t: Id :: Lookup(windows, t) == Span(rows, RowKey(project, t))
  }

  lemma TracksStep(windows: map<Id, Window>, rows: seq<ObsRow>, project: Id, row: ObsRow)
    requires Tracks(windows, rows, project) && row.project == project
    ensures Tracks(windows[row.traceId := Widen(Lookup(windows, row.traceId), row.startedAt)], rows + [row], project)
  {
    assert (rows + [row])[..|rows|] == rows;
  }

  lemma NamedAfter(rows: seq<ObsRow>, row: ObsRow)
    ensures TraceIds(rows + [row]) == TraceIds(rows) + {row.traceId}
  {
    var all := rows + [row];
    assert all[|rows|] == row;
    forall t | t in TraceIds(rows) ensures t in TraceIds(all) {
      var i :| 0 <= i < |rows| && rows[i].traceId == t;
      assert all[i].traceId == t;
    }
  }

  lemma AcceptedStep(pairs: seq<Pair>, i: nat, project: Id, now: Time, book: Book)
    requires i < |pairs|
    ensures AcceptedRows(pairs[..i + 1], project, now, book)
         == AcceptedRows(pairs[..i], project, now, book)
            + (if Accepts(pairs[i], now) then [MakeRow(pairs[i], project, book)] else [])
    ensures RejectedCount(pairs[..i + 1], now)
         == RejectedCount(pairs[..i], now)
            + (if StartOf(pairs[i]).Some? && !InWindow(StartOf(pairs[i]).value, now) then 1 else 0)
  {
    assert pairs[..i + 1][..i] == pairs[..i];
  }

  method PricedRow(prices: PriceLookup, pair: Pair, project: Id) returns (row: ObsRow)
    requires DistinctKeys(prices.book) && StartOf(pair).Some?
    modifies prices`unknownSeen
    ensures row == MakeRow(pair, project, prices.book)
  {
    var d := pair.0.detail;
    var cost := ComputeCost(prices, d.model, d.promptTokens, d.completionTokens, d.cachedTokens);
    row := ObsRow(pair.0.id, project, TraceOf(pair), StartOf(pair).value, pair.0.endedAt, pair.0.latencyMs, d, cost);
  }

  /** Flattens the batch into priced rows, with the window of every trace they touch. */
  method ObservationRows(prices: PriceLookup, batch: Batch, project: Id, now: Time)
    returns (rows: seq<ObsRow>, windows: map<Id, Window>, orphans: set<Id>, rejected: nat)
    requires DistinctKeys(prices.book)
    modifies prices`unknownSeen
    ensures rows == AcceptedRows(Pairs(batch), project, now, prices.book)
    ensures Tracks(windows, rows, project)
    ensures orphans == TraceIds(rows) - ExplicitIds(batch)
    ensures rejected == RejectedCount(Pairs(batch), now)
  {
    var pairs := Pairs(batch);
    var explicit := ExplicitIds(batch);
    rows, windows, orphans, rejected := [], map[], {}, 0;
    for i := 0 to |pairs|
      invariant rows == AcceptedRows(pairs[..i], project, now, prices.book)
      invariant Tracks(windows, rows, project)
      invariant orphans == TraceIds(rows) - explicit
      invariant rejected == RejectedCount(pairs[..i], now)
    {
      AcceptedStep(pairs, i, project, now, prices.book);
      var pair := pairs[i];
      var traceId, startedAt := TraceOf(pair), StartOf(pair);
      if startedAt.None? {
        continue;
      }
      if !InWindow(startedAt.value, now) {
        rejected := rejected + 1;
        continue;
      }
      var row := PricedRow(prices, pair, project);
      TracksStep(windows, rows, project, row);
      NamedAfter(rows, row);
      windows := windows[traceId := Widen(Lookup(windows, traceId), startedAt.value)];
      if traceId !in explicit {
        orphans := orphans + {traceId};
      }
      rows := rows + [row];
    }
    assert pairs[..|pairs|] == pairs;
  }

  method ScoreRowsOf(scores: seq<Score>, project: Id, received: Time) returns (rows: seq<ScoreRow>, rejected: nat)
    ensures rows == ScoreRows(scores, project, received)
    ensures rejected == |scores| - |rows|
  {
    rows, rejected := [], 0;
    for i := 0 to |scores|
      invariant rows == ScoreRows(scores[..i], project, received)
      invariant rejected == i - |rows|
    {
      assert scores[..i + 1][..i] == scores[..i];
      if !scores[i].HasTarget() {
        rejected := rejected + 1;
        continue;
      }
      rows := rows + [MakeScore(scores[i], project, received)];
    }
    assert scores[..|scores|] == scores;
  }

  method TraceRowsOf(traces: seq<Trace>, windows: map<Id, Window>, project: Id, sdk: Option<string>,
                     ghost rows: seq<ObsRow>) returns (sends: seq<TraceSend>)
    requires Tracks(windows, rows, project)
    ensures sends == SendsOf(traces, rows, project, sdk)
  {
    sends := seq(|traces|, i requires 0 <= i < |traces| =>
      MakeSend(traces[i], project, sdk, Lookup(windows, traces[i].id)));
  }

  method OrphanWindows(windows: map<Id, Window>, orphans: set<Id>, ghost rows: seq<ObsRow>, project: Id,
                       ghost explicit: set<Id>) returns (stubs: map<Id, Window>)
    requires Tracks(windows, rows, project)
    requires orphans == TraceIds(rows) - explicit
    ensures stubs == StubWindows(rows, project, explicit)
  {
    stubs := map t | t in orphans && t in windows :: windows[t];
  }

  // ---------------------------------------------------------------- the store

  /** The tenant tables and the set of days that have a partition of their own. */
  class Store {
    var traces: map<RowKey, TraceRow>
    var observations: map<ObsKey, ObsRow>
    var scores: map<RowKey, ScoreRow>
    var partitions: set<int>
    const prices: PriceLookup

    ghost function Contents(): Tables
      reads this
    {
      Tables(traces, observations, scores)
    }

    constructor (prices: PriceLookup)
      ensures Contents() == EMPTY && partitions == {} && this.prices == prices
    {
      traces, observations, scores, partitions := map[], map[], map[], {};
      this.prices := prices;
    }

    static lemma NextStatement(rows: seq<TraceSend>, start: nat, end: nat)
      requires start < |rows| && end == if start + CHUNK_ROWS <= |rows| then start + CHUNK_ROWS else |rows|
      ensures ChunksOk(rows[start..]) <==> ChunkOk(rows[start..end]) && ChunksOk(rows[end..])
      ensures rows[..start] + rows[start..end] == rows[..end]
    {
      var rest := rows[start..];
      assert rest[..end - start] == rows[start..end] && rest[end - start..] == rows[end..];
      assert |rest| <= CHUNK_ROWS ==> rows[start..end] == rest && rows[end..] == [];
    }

    /** One statement per chunk; false as soon as Postgres refuses one. */
    method Upsert(rows: seq<TraceSend>, now: Time) returns (ok: bool)
      modifies this`traces
      ensures ok == ChunksOk(rows)
      ensures ok ==> AllStarted(rows) && traces == UpsertTraces(old(traces), rows, now)
    {
      var start := 0;
      while start < |rows|
        invariant 0 <= start <= |rows|
        invariant AllStarted(rows[..start]) && traces == UpsertTraces(old(traces), rows[..start], now)
        invariant ChunksOk(rows) == ChunksOk(rows[start..])
      {
        var end := if start + CHUNK_ROWS <= |rows| then start + CHUNK_ROWS else |rows|;
        var chunk := rows[start..end];
        NextStatement(rows, start, end);
        if !ChunkOk(chunk) {
          return false;
        }
        UpsertInParts(old(traces), rows[..start], chunk, now);
        traces := UpsertTraces(traces, chunk, now);
        start := end;
      }
      assert rows[..start] == rows && rows[start..] == [];
      return true;
    }

    static method Listed(s: set<Id>) returns (ids: seq<Id>)
      ensures forall t :: t in ids <==> t in s
      ensures forall i, j :: 0 <= i < j < |ids| ==> ids[i] != ids[j]
    {
      ids := [];
      var todo := s;
      while todo != {}
        invariant todo <= s && forall t :: t in s <==> t in ids || t in todo
        invariant forall t :: t in ids ==> t !in todo
        invariant forall i, j :: 0 <= i < j < |ids| ==> ids[i] != ids[j]
        decreases |todo|
      {
        var t :| t in todo;
        ids, todo := ids + [t], todo - {t};
      }
    }

    static function Restricted(windows: map<Id, Window>, ids: seq<Id>): map<Id, Window> {
      map t | t in windows && t in ids :: windows[t]
    }

    method UpsertStubs(project: Id, windows: map<Id, Window>, now: Time)
      modifies this`traces
      ensures traces == InsertStubs(old(traces), project, windows, now)
    {
      var ids := Listed(windows.Keys);
      var start := 0;
      NoStubs(traces, project, now);
      while start < |ids|
        invariant 0 <= start <= |ids|
        invariant traces == InsertStubs(old(traces), project, Restricted(windows, ids[..start]), now)
      {
        var end := if start + CHUNK_ROWS <= |ids| then start + CHUNK_ROWS else |ids|;
        var chunk := Restricted(windows, ids[start..end]);
        RestrictedInParts(windows, ids, start, end);
        StubsInParts(old(traces), project, Restricted(windows, ids[..start]), chunk, now);
        traces := InsertStubs(traces, project, chunk, now);
        start := end;
      }
      assert ids[..start] == ids;
      assert Restricted(windows, ids) == windows;
    }

    static lemma RestrictedInParts(windows: map<Id, Window>, ids: seq<Id>, start: nat, end: nat)
      requires start <= end <= |ids| && forall i, j :: 0 <= i < j < |ids| ==> ids[i] != ids[j]
      ensures Restricted(windows, ids[..start]).Keys !! Restricted(windows, ids[start..end]).Keys
      ensures Restricted(windows, ids[..start]) + Restricted(windows, ids[start..end]) == Restricted(windows, ids[..end])
    {
      assert ids[..end] == ids[..start] + ids[start..end];
    }

    method AddObservations(rows: seq<ObsRow>)
      modifies this`observations
      ensures observations == InsertObservations(old(observations), rows)
    {
      var start := 0;
      while start < |rows|
        invariant 0 <= start <= |rows|
        invariant observations == InsertObservations(old(observations), rows[..start])
      {
        var end := if start + CHUNK_ROWS <= |rows| then start + CHUNK_ROWS else |rows|;
        ObservationsInParts(old(observations), rows[..start], rows[start..end]);
        assert rows[..start] + rows[start..end] == rows[..end];
        observations := InsertObservations(observations, rows[start..end]);
        start := end;
      }
      assert rows[..start] == rows;
    }

    method AddScores(rows: seq<ScoreRow>)
      modifies this`scores
      ensures scores == InsertScores(old(scores), rows)
    {
      var start := 0;
      while start < |rows|
        invariant 0 <= start <= |rows|
        invariant scores == InsertScores(old(scores), rows[..start])
      {
        var end := if start + CHUNK_ROWS <= |rows| then start + CHUNK_ROWS else |rows|;
        ScoresInParts(old(scores), rows[..start], rows[start..end]);
        assert rows[..start] + rows[start..end] == rows[..end];
        scores := InsertScores(scores, rows[start..end]);
        start := end;
      }
      assert rows[..start] == rows;
    }

    /** The four bulk writes as one transaction, rolled back when Postgres refuses a statement. */
    method Transact(sends: seq<TraceSend>, project: Id, stubs: map<Id, Window>, rows: seq<ObsRow>,
                    scoreRows: seq<ScoreRow>, now: Time) returns (ok: bool)
      modifies this`traces, this`observations, this`scores
      ensures ok == ChunksOk(sends)
      ensures !ok ==> Contents() == old(Contents())
      ensures ok ==> AllStarted(sends)
      ensures ok ==> Contents() == Tables(InsertStubs(UpsertTraces(old(traces), sends, now), project, stubs, now),
                                          InsertObservations(old(observations), rows),
                                          InsertScores(old(scores), scoreRows))
    {
      var saved := traces;
      ok := Upsert(sends, now);
      if !ok {
        traces := saved;
        return;
      }
      UpsertStubs(project, stubs, now);
      AddObservations(rows);
      AddScores(scoreRows);
    }

    /** POST /v1/ingest: accept a batch, write it in one transaction, and answer. */
    method Ingest(batch: Batch, project: Id, sdkHeader: Option<string>, now: Time) returns (response: Response)
      requires DistinctKeys(prices.book)
      modifies this`traces, this`observations, this`scores, prices`unknownSeen
      ensures Contents() == Step(old(Contents()), Request(project, batch, sdkHeader, now, prices.book))
      ensures response == Reply(Request(project, batch, sdkHeader, now, prices.book))
    {
      ghost var req := Request(project, batch, sdkHeader, now, prices.book);
      if |batch.traces| > MAX_TRACES || ObservationCount(batch) > MAX_OBSERVATIONS {
        return TooLargeResponse;
      }
      var sdk := EffectiveSdk(sdkHeader, batch.sdkVersion);
      var rows, windows, orphans, rejected := ObservationRows(prices, batch, project, now);
      var scoreRows, rejectedScores := ScoreRowsOf(batch.scores, project, now);
      var traceRows := TraceRowsOf(batch.traces, windows, project, sdk, rows);
      var stubs := OrphanWindows(windows, orphans, rows, project, ExplicitIds(batch));
      SendsOk(req);
      var ok := Transact(traceRows, project, stubs, rows, scoreRows, now);
      return if ok then Accepted(|batch.traces|, |rows|, |scoreRows|, rejected, rejectedScores) else Failed;
    }
  }
}
