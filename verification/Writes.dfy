/** routers/ingest.py on values: the rows a request proposes and what its four bulk statements leave stored. */
module Writes {
  import opened Types
  import opened Batches
  import opened Pricing
  import opened Costs

  const CHUNK_ROWS := 500
  const MAX_TRACES := 1000
  const MAX_OBSERVATIONS := 5000
  const MAX_AGE := 7 * MICROS_PER_DAY
  const MAX_FUTURE := MICROS_PER_DAY

  /** One authenticated request, with the clock and the pricebook in force when it is served. */
  datatype Request = Request(project: Id, batch: Batch, sdkHeader: Option<string>, now: Time, book: Book)

  type Pair = (Obs, Option<Trace>)

  // ---------------------------------------------------------------- observation rows

  predicate InWindow(t: int, now: int) {
    now - MAX_AGE <= t <= now + MAX_FUTURE
  }

  function StartOf(pair: Pair): Option<Time> {
    if pair.0.startedAt.Some? || pair.1.None? then pair.0.startedAt else pair.1.value.startedAt
  }

  /** The trace an observation belongs to; an unattributable one is its own trace. */
  function TraceOf(pair: Pair): Id {
    if pair.0.traceId.Some? then pair.0.traceId.value
    else if pair.1.Some? then pair.1.value.id
    else pair.0.id
  }

  predicate Accepts(pair: Pair, now: Time) {
    StartOf(pair).Some? && InWindow(StartOf(pair).value, now)
  }

  ghost function MakeRow(pair: Pair, project: Id, book: Book): ObsRow
    requires StartOf(pair).Some?
  {
    var d := pair.0.detail;
    ObsRow(pair.0.id, project, TraceOf(pair), StartOf(pair).value, pair.0.endedAt, pair.0.latencyMs, d,
           Cost(book, d.model, d.promptTokens, d.completionTokens, d.cachedTokens))
  }

  ghost function AcceptedRows(pairs: seq<Pair>, project: Id, now: Time, book: Book): seq<ObsRow> {
    if pairs == [] then []
    else
      var rows := AcceptedRows(pairs[..|pairs| - 1], project, now, book);
      var pair := pairs[|pairs| - 1];
      if Accepts(pair, now) then rows + [MakeRow(pair, project, book)] else rows
  }

  function RejectedCount(pairs: seq<Pair>, now: Time): nat {
    if pairs == [] then 0
    else
      var pair := pairs[|pairs| - 1];
      RejectedCount(pairs[..|pairs| - 1], now)
      + (if StartOf(pair).Some? && !Accepts(pair, now) then 1 else 0)
  }

  ghost function ProposedRows(req: Request): seq<ObsRow> {
    AcceptedRows(Pairs(req.batch), req.project, req.now, req.book)
  }

  // ---------------------------------------------------------------- windows

  function Widen(w: Option<Window>, t: Time): Window {
    match w
    case None => Window(t, t)
    case Some(v) => Window(if v.lo <= t then v.lo else t, if v.hi >= t then v.hi else t)
  }

  /** The started_at span of the rows of one trace. */
  function Span(rows: seq<ObsRow>, trace: RowKey): Option<Window> {
    if rows == [] then None
    else
      var w := Span(rows[..|rows| - 1], trace);
      var r := rows[|rows| - 1];
      if TraceKey(r) == trace then Some(Widen(w, r.startedAt)) else w
  }

  function TraceKey(r: ObsRow): RowKey {
    RowKey(r.project, r.traceId)
  }

  function ExplicitIds(batch: Batch): set<Id> {
    set i | 0 <= i < |batch.traces| :: batch.traces[i].id
  }

  function TraceIds(rows: seq<ObsRow>): set<Id> {
    set i | 0 <= i < |rows| :: rows[i].traceId
  }

  /** The windows of the traces the rows name but the batch does not carry. */
  function StubWindows(rows: seq<ObsRow>, project: Id, explicit: set<Id>): map<Id, Window> {
    map t | t in TraceIds(rows) - explicit && Span(rows, RowKey(project, t)).Some? :: Span(rows, RowKey(project, t)).value
  }

  // ---------------------------------------------------------------- trace rows

  function EffectiveSdk(header: Option<string>, body: Option<string>): Option<string> {
    if header.Some? && header.value != "" then header else body
  }

  function MakeSend(trace: Trace, project: Id, sdk: Option<string>, window: Option<Window>): TraceSend {
    TraceSend(trace.id, project, trace.about, trace.startedAt, trace.endedAt, sdk, window)
  }

  function SendsOf(traces: seq<Trace>, rows: seq<ObsRow>, project: Id, sdk: Option<string>): seq<TraceSend> {
    seq(|traces|, i requires 0 <= i < |traces| =>
      MakeSend(traces[i], project, sdk, Span(rows, RowKey(project, traces[i].id))))
  }

  ghost function Sends(req: Request): seq<TraceSend> {
    SendsOf(req.batch.traces, ProposedRows(req), req.project, EffectiveSdk(req.sdkHeader, req.batch.sdkVersion))
  }

  /** ON CONFLICT DO UPDATE of one statement row against the stored row, if any. */
  function MergeTrace(stored: Option<TraceRow>, s: TraceSend, now: Time): TraceRow
    requires s.startedAt.Some?
  {
    match stored
    case None => TraceRow(s.about, s.startedAt.value, s.endedAt, s.sdkVersion, s.Lo(), s.Hi(), now, now)
    case Some(row) =>
      TraceRow(
        About(Coalesce(s.about.name, row.about.name), Coalesce(s.about.userId, row.about.userId),
              Coalesce(s.about.sessionId, row.about.sessionId),
              if s.about.tags == [] then row.about.tags else s.about.tags,
              Coalesce(s.about.environment, row.about.environment), Coalesce(s.about.release, row.about.release),
              row.about.metadata + s.about.metadata),
        s.startedAt.value, Coalesce(s.endedAt, row.endedAt), Coalesce(s.sdkVersion, row.sdkVersion),
        Least(row.obsMin, s.Lo()), Greatest(row.obsMax, s.Hi()), row.createdAt, now)
  }

  const BLANK := About(None, None, None, [], None, None, map[])

  /** The stub's statement: insert a placeholder, or widen the window and touch nothing else. */
  function WidenTrace(stored: Option<TraceRow>, w: Window, now: Time): TraceRow {
    match stored
    case None => TraceRow(BLANK, w.lo, None, None, Some(w.lo), Some(w.hi), now, now)
    case Some(row) =>
      row.(obsMin := Least(row.obsMin, Some(w.lo)), obsMax := Greatest(row.obsMax, Some(w.hi)), updatedAt := now)
  }

  // ---------------------------------------------------------------- statements

  predicate AllStarted(sends: seq<TraceSend>) {
    forall i :: 0 <= i < |sends| ==> sends[i].startedAt.Some?
  }

  /** Postgres refuses to update one row twice in a statement, and a NULL started_at. */
  predicate ChunkOk(chunk: seq<TraceSend>) {
    AllStarted(chunk) && forall i, j :: 0 <= i < j < |chunk| ==> chunk[i].Key() != chunk[j].Key()
  }

  /** Every 500-row statement of the upsert is one Postgres accepts. */
  predicate ChunksOk(sends: seq<TraceSend>)
    decreases |sends|
  {
    if |sends| <= CHUNK_ROWS then ChunkOk(sends)
    else ChunkOk(sends[..CHUNK_ROWS]) && ChunksOk(sends[CHUNK_ROWS..])
  }

  function UpsertTraces(traces: map<RowKey, TraceRow>, sends: seq<TraceSend>, now: Time): map<RowKey, TraceRow>
    requires AllStarted(sends)
  {
    if sends == [] then traces
    else
      var before := UpsertTraces(traces, sends[..|sends| - 1], now);
      var s := sends[|sends| - 1];
      before[s.Key() := MergeTrace(Lookup(before, s.Key()), s, now)]
  }

  function StubKeys(project: Id, stubs: map<Id, Window>): set<RowKey> {
    set t | t in stubs :: RowKey(project, t)
  }

  function InsertStubs(traces: map<RowKey, TraceRow>, project: Id, stubs: map<Id, Window>, now: Time): map<RowKey, TraceRow> {
    map k | k in traces.Keys + StubKeys(project, stubs) ::
      if k.project == project && k.id in stubs then WidenTrace(Lookup(traces, k), stubs[k.id], now) else traces[k]
  }

  /** The stub statements, row by row. */
  lemma StubsAt(traces: map<RowKey, TraceRow>, project: Id, stubs: map<Id, Window>, now: Time, k: RowKey)
    ensures Lookup(InsertStubs(traces, project, stubs, now), k)
         == if k.project == project && k.id in stubs then Some(WidenTrace(Lookup(traces, k), stubs[k.id], now))
            else Lookup(traces, k)
  {
    assert k == RowKey(k.project, k.id);
    assert k in StubKeys(project, stubs) <==> k.project == project && k.id in stubs;
  }

  lemma SameEverywhere<K, V>(m: map<K, V>, n: map<K, V>)
    requires forall k :: Lookup(m, k) == Lookup(n, k)
    ensures m == n
  {
    forall k ensures k in m <==> k in n {
      assert Lookup(m, k) == Lookup(n, k);
    }
    forall k | k in m ensures m[k] == n[k] {
      assert Lookup(m, k) == Lookup(n, k);
    }
  }

  /** ON CONFLICT DO NOTHING: the first row of a key stays. */
  function InsertObservations(observations: map<ObsKey, ObsRow>, rows: seq<ObsRow>): map<ObsKey, ObsRow> {
    if rows == [] then observations
    else
      var before := InsertObservations(observations, rows[..|rows| - 1]);
      var r := rows[|rows| - 1];
      if r.Key() in before then before else before[r.Key() := r]
  }

  function InsertScores(scores: map<RowKey, ScoreRow>, rows: seq<ScoreRow>): map<RowKey, ScoreRow> {
    if rows == [] then scores
    else
      var before := InsertScores(scores, rows[..|rows| - 1]);
      var r := rows[|rows| - 1];
      if r.Key() in before then before else before[r.Key() := r]
  }

  function MakeScore(score: Score, project: Id, received: Time): ScoreRow {
    var (kind, number, text) :=
      match score.value
      case Flag(on) => (Boolean, Some(if on then 1.0 else 0.0), None)
      case Number(n) => (Numeric, Some(n), None)
      case Label(t) => (Categorical, None, Some(t));
    ScoreRow(score.id, project, score.traceId, score.observationId, score.name, kind, number, text,
             score.scoredAt.GetOr(received), score.body)
  }

  /** The typed columns keep every wire value apart, true from 1 and 1 from "1" included. */
  lemma ScoreValuesStayApart(score: Score, other: ScoreValue, project: Id, received: Time)
    ensures MakeScore(score, project, received) == MakeScore(score.(value := other), project, received)
            <==> score.value == other
  {
  }

  function ScoreRows(scores: seq<Score>, project: Id, received: Time): (rows: seq<ScoreRow>)
    ensures |rows| <= |scores|
  {
    if scores == [] then []
    else
      var rows := ScoreRows(scores[..|scores| - 1], project, received);
      var score := scores[|scores| - 1];
      if score.HasTarget() then rows + [MakeScore(score, project, received)] else rows
  }

  // ---------------------------------------------------------------- the request

  predicate TooLarge(batch: Batch) {
    |batch.traces| > MAX_TRACES || ObservationCount(batch) > MAX_OBSERVATIONS
  }

  /** The statements a request would fail on depend on its batch alone. */
  predicate StatementsOk(batch: Batch) {
    ChunksOk(SendsOf(batch.traces, [], 0, None))
  }

  predicate Admissible(batch: Batch) {
    !TooLarge(batch) && StatementsOk(batch)
  }

  lemma {:induction false} ChunksSeeOnlyKeys(a: seq<TraceSend>, b: seq<TraceSend>)
    requires |a| == |b|
    requires forall i :: 0 <= i < |a| ==> a[i].startedAt == b[i].startedAt
    requires forall i, j :: 0 <= i < j < |a| ==> (a[i].Key() == a[j].Key() <==> b[i].Key() == b[j].Key())
    ensures ChunksOk(a) <==> ChunksOk(b)
    decreases |a|
  {
    if |a| <= CHUNK_ROWS {
      assert ChunkOk(a) <==> ChunkOk(b);
    } else {
      var a0, b0 := a[..CHUNK_ROWS], b[..CHUNK_ROWS];
      assert forall i :: 0 <= i < |a0| ==> a0[i] == a[i] && b0[i] == b[i];
      assert ChunkOk(a0) <==> ChunkOk(b0);
      ChunksSeeOnlyKeys(a[CHUNK_ROWS..], b[CHUNK_ROWS..]);
    }
  }

  lemma {:induction false} AllChunksStarted(sends: seq<TraceSend>)
    requires ChunksOk(sends)
    ensures AllStarted(sends)
    decreases |sends|
  {
    if |sends| > CHUNK_ROWS {
      AllChunksStarted(sends[CHUNK_ROWS..]);
      forall i | 0 <= i < |sends|
        ensures sends[i].startedAt.Some?
      {
        assert sends[i] == if i < CHUNK_ROWS then sends[..CHUNK_ROWS][i] else sends[CHUNK_ROWS..][i - CHUNK_ROWS];
      }
    }
  }

  /** The failing condition, read off the rows the upsert really receives. */
  lemma SendsOk(req: Request)
    ensures StatementsOk(req.batch) <==> ChunksOk(Sends(req))
    ensures StatementsOk(req.batch) ==> AllStarted(Sends(req))
  {
    ChunksSeeOnlyKeys(SendsOf(req.batch.traces, [], 0, None), Sends(req));
    if StatementsOk(req.batch) {
      AllChunksStarted(Sends(req));
    }
  }

  /** No two rows that share a 500-row statement share a key. */
  predicate DistinctInStatements(sends: seq<TraceSend>) {
    forall i, j :: 0 <= i < j < |sends| && i / CHUNK_ROWS == j / CHUNK_ROWS ==> sends[i].Key() != sends[j].Key()
  }

  /** Position by position: every row has a start, and no key repeats within one statement. */
  lemma {:induction false} ChunksOkIff(sends: seq<TraceSend>)
    ensures ChunksOk(sends) <==> AllStarted(sends) && DistinctInStatements(sends)
    decreases |sends|
  {
    if |sends| > CHUNK_ROWS {
      var head, rest := sends[..CHUNK_ROWS], sends[CHUNK_ROWS..];
      ChunksOkIff(rest);
      assert forall i :: 0 <= i < |sends| ==> sends[i] == if i < CHUNK_ROWS then head[i] else rest[i - CHUNK_ROWS];
      SliceShifts(sends);
    }
  }

  lemma SliceShifts(sends: seq<TraceSend>)
    requires |sends| > CHUNK_ROWS
    ensures DistinctInStatements(sends)
            <==> DistinctInStatements(sends[CHUNK_ROWS..])
                 && forall i, j :: 0 <= i < j < CHUNK_ROWS ==> sends[i].Key() != sends[j].Key()
  {
    var rest := sends[CHUNK_ROWS..];
    assert forall i :: CHUNK_ROWS <= i < |sends| ==> sends[i] == rest[i - CHUNK_ROWS];
    if DistinctInStatements(sends) {
      forall i, j | 0 <= i < j < |rest| && i / CHUNK_ROWS == j / CHUNK_ROWS ensures rest[i].Key() != rest[j].Key() {
        assert rest[i] == sends[i + CHUNK_ROWS] && rest[j] == sends[j + CHUNK_ROWS];
      }
    }
  }

  /** Whether Postgres takes the traces of a batch: every trace has a start, and none is named twice within one
      slice of 500. */
  lemma StatementsOkIff(batch: Batch)
    ensures StatementsOk(batch)
            <==> (forall i :: 0 <= i < |batch.traces| ==> batch.traces[i].startedAt.Some?)
                 && forall i, j :: 0 <= i < j < |batch.traces| && i / CHUNK_ROWS == j / CHUNK_ROWS
                      ==> batch.traces[i].id != batch.traces[j].id
  {
    var sends := SendsOf(batch.traces, [], 0, None);
    ChunksOkIff(sends);
    assert forall i :: 0 <= i < |sends| ==>
      sends[i].startedAt == batch.traces[i].startedAt && sends[i].Key() == RowKey(0, batch.traces[i].id);
  }

  /** What an admissible request leaves stored. */
  ghost function Write(t: Tables, req: Request): Tables
    requires Admissible(req.batch)
  {
    SendsOk(req);
    var rows := ProposedRows(req);
    var upserted := UpsertTraces(t.traces, Sends(req), req.now);
    var stubs := StubWindows(rows, req.project, ExplicitIds(req.batch));
    Tables(InsertStubs(upserted, req.project, stubs, req.now),
           InsertObservations(t.observations, rows),
           InsertScores(t.scores, ScoreRows(req.batch.scores, req.project, req.now)))
  }

  /** One request as one transaction: it writes everything or leaves the tables alone. */
  ghost function Step(t: Tables, req: Request): Tables {
    if Admissible(req.batch) then Write(t, req) else t
  }

  ghost function Run(history: seq<Request>): Tables {
    if history == [] then EMPTY else Step(Run(history[..|history| - 1]), history[|history| - 1])
  }

  ghost function RunFrom(t: Tables, history: seq<Request>): Tables {
    if history == [] then t else Step(RunFrom(t, history[..|history| - 1]), history[|history| - 1])
  }
}
