/** What a stored row says about the whole history of requests that led to it. */
module History {
  import opened Types
  import opened Batches
  import opened Writes
  import Router

  // ---------------------------------------------------------------- the writes one trace receives

  datatype AnyTouch = Sent(send: TraceSend, at: Time) | Stubbed(window: Window, at: Time)

  /** One write to one trace row: an explicit send, which carries a start, or a stub. */
  type Touch = t: AnyTouch | t.Sent? ==> t.send.startedAt.Some? witness Stubbed(Window(0, 0), 0)

  ghost function SendTouches(sends: seq<TraceSend>, k: RowKey, now: Time): seq<Touch>
    requires AllStarted(sends)
  {
    if sends == [] then []
    else
      var before := SendTouches(sends[..|sends| - 1], k, now);
      var s := sends[|sends| - 1];
      if s.Key() == k then before + [Sent(s, now)] else before
  }

  ghost function Stubs(req: Request): map<Id, Window> {
    StubWindows(ProposedRows(req), req.project, ExplicitIds(req.batch))
  }

  ghost function StubTouches(req: Request, k: RowKey): seq<Touch> {
    if k.project == req.project && k.id in Stubs(req) then [Stubbed(Stubs(req)[k.id], req.now)] else []
  }

  /** The writes one request makes to the row of k: its sends in batch order, then at most one stub. */
  ghost function TouchesBy(req: Request, k: RowKey): seq<Touch> {
    if Admissible(req.batch) then
      SendsOk(req);
      SendTouches(Sends(req), k, req.now) + StubTouches(req, k)
    else []
  }

  ghost function Touches(history: seq<Request>, k: RowKey): seq<Touch> {
    if history == [] then [] else Touches(history[..|history| - 1], k) + TouchesBy(history[|history| - 1], k)
  }

  ghost function Apply(row: Option<TraceRow>, t: Touch): TraceRow {
    match t
    case Sent(s, at) => MergeTrace(row, s, at)
    case Stubbed(w, at) => WidenTrace(row, w, at)
  }

  ghost function Fold(row: Option<TraceRow>, touches: seq<Touch>): Option<TraceRow> {
    if touches == [] then row
    else Some(Apply(Fold(row, touches[..|touches| - 1]), touches[|touches| - 1]))
  }

  lemma {:induction false} FoldInParts(row: Option<TraceRow>, a: seq<Touch>, b: seq<Touch>)
    ensures Fold(Fold(row, a), b) == Fold(row, a + b)
    decreases |b|
  {
    if b == [] {
      assert a + b == a;
    } else {
      assert (a + b)[..|a + b| - 1] == a + b[..|b| - 1];
      FoldInParts(row, a, b[..|b| - 1]);
    }
  }

  lemma {:induction false} UpsertAt(traces: map<RowKey, TraceRow>, sends: seq<TraceSend>, now: Time, k: RowKey)
    requires AllStarted(sends)
    ensures Lookup(UpsertTraces(traces, sends, now), k) == Fold(Lookup(traces, k), SendTouches(sends, k, now))
    decreases |sends|
  {
    if sends != [] {
      UpsertAt(traces, sends[..|sends| - 1], now, k);
    }
  }

  /** A request acts on each row as the fold of the writes it makes to that row. */
  lemma StepAt(t: Tables, req: Request, k: RowKey)
    ensures Lookup(Step(t, req).traces, k) == Fold(Lookup(t.traces, k), TouchesBy(req, k))
  {
    if Admissible(req.batch) {
      SendsOk(req);
      var upserted := UpsertTraces(t.traces, Sends(req), req.now);
      UpsertAt(t.traces, Sends(req), req.now, k);
      StubsAt(upserted, req.project, Stubs(req), req.now, k);
      FoldInParts(Lookup(t.traces, k), SendTouches(Sends(req), k, req.now), StubTouches(req, k));
    }
  }

  lemma {:induction false} RunFromAt(t: Tables, history: seq<Request>, k: RowKey)
    ensures Lookup(RunFrom(t, history).traces, k) == Fold(Lookup(t.traces, k), Touches(history, k))
    decreases |history|
  {
    if history != [] {
      var init, last := history[..|history| - 1], history[|history| - 1];
      RunFromAt(t, init, k);
      StepAt(RunFrom(t, init), last, k);
      FoldInParts(Lookup(t.traces, k), Touches(init, k), TouchesBy(last, k));
    }
  }

  lemma {:induction false} RunIsRunFromEmpty(history: seq<Request>)
    ensures Run(history) == RunFrom(EMPTY, history)
    decreases |history|
  {
    if history != [] {
      RunIsRunFromEmpty(history[..|history| - 1]);
    }
  }

  lemma RunAt(history: seq<Request>, k: RowKey)
    ensures Lookup(Run(history).traces, k) == Fold(None, Touches(history, k))
  {
    RunIsRunFromEmpty(history);
    RunFromAt(EMPTY, history, k);
  }

  // ---------------------------------------------------------------- reading the descriptive columns

  /** r is the last thing any write had to say about a column, or None if none ever spoke. */
  ghost predicate Latest<T>(h: seq<Touch>, said: Touch -> Option<T>, r: Option<T>) {
    match r
    case None => forall i :: 0 <= i < |h| ==> said(h[i]).None?
    case Some(v) => exists i :: 0 <= i < |h| && said(h[i]) == Some(v) && forall j :: i < j < |h| ==> said(h[j]).None?
  }

  function Name(t: Touch): Option<string> {
    if t.Sent? then t.send.about.name else None
  }

  function UserId(t: Touch): Option<string> {
    if t.Sent? then t.send.about.userId else None
  }

  function SessionId(t: Touch): Option<string> {
    if t.Sent? then t.send.about.sessionId else None
  }

  function Environment(t: Touch): Option<string> {
    if t.Sent? then t.send.about.environment else None
  }

  function Release(t: Touch): Option<string> {
    if t.Sent? then t.send.about.release else None
  }

  function Ended(t: Touch): Option<Time> {
    if t.Sent? then t.send.endedAt else None
  }

  function Sdk(t: Touch): Option<string> {
    if t.Sent? then t.send.sdkVersion else None
  }

  /** An empty tag list says nothing. */
  function Tags(t: Touch): Option<seq<string>> {
    if t.Sent? then NonEmpty(t.send.about.tags) else None
  }

  function NonEmpty(tags: seq<string>): Option<seq<string>> {
    if tags == [] then None else Some(tags)
  }

  function Meta(key: string): Touch -> Option<Json> {
    (t: Touch) => if t.Sent? then Lookup(t.send.about.metadata, key) else None
  }

  function Start(t: Touch): Option<Time> {
    if t.Sent? then t.send.startedAt else None
  }

  /** The start is that of the last explicit send, or else of the stub that created the row. */
  ghost predicate StartReads(h: seq<Touch>, startedAt: Time) {
    if exists i :: 0 <= i < |h| && h[i].Sent? then Latest(h, Start, Some(startedAt))
    else |h| > 0 && h[0].Stubbed? && startedAt == h[0].window.lo
  }

  /** The five text columns. */
  ghost predicate TextReads(h: seq<Touch>, about: About) {
    && Latest(h, Name, about.name)
    && Latest(h, UserId, about.userId)
    && Latest(h, SessionId, about.sessionId)
    && Latest(h, Environment, about.environment)
    && Latest(h, Release, about.release)
  }

  ghost predicate OtherReads(h: seq<Touch>, row: TraceRow) {
    && Latest(h, Tags, NonEmpty(row.about.tags))
    && Latest(h, Ended, row.endedAt)
    && Latest(h, Sdk, row.sdkVersion)
  }

  /** Key by key, the last value sent. */
  ghost predicate MetadataReads(h: seq<Touch>, metadata: map<string, Json>) {
    forall key :: Latest(h, Meta(key), Lookup(metadata, key))
  }

  /** Every descriptive column of a stored trace, read off the writes it received. */
  ghost predicate RowReads(h: seq<Touch>, row: TraceRow) {
    && |h| > 0
    && TextReads(h, row.about)
    && OtherReads(h, row)
    && MetadataReads(h, row.about.metadata)
    && StartReads(h, row.startedAt)
    && row.createdAt == h[0].at
    && row.updatedAt == h[|h| - 1].at
  }

  lemma LatestStep<T>(h: seq<Touch>, t: Touch, said: Touch -> Option<T>, r: Option<T>)
    requires Latest(h, said, r)
    ensures Latest(h + [t], said, Coalesce(said(t), r))
  {
    var all := h + [t];
    assert all[|h|] == t;
    if said(t).None? && r.Some? {
      var i :| 0 <= i < |h| && said(h[i]) == r && forall j :: i < j < |h| ==> said(h[j]).None?;
      assert all[i] == h[i];
      assert forall j :: i < j < |all| ==> said(all[j]).None?;
    }
  }

  /** The last thing said, computed. */
  ghost function LatestOf<T>(h: seq<Touch>, said: Touch -> Option<T>): Option<T> {
    if h == [] then None else Coalesce(said(h[|h| - 1]), LatestOf(h[..|h| - 1], said))
  }

  lemma {:induction false} LatestIsComputed<T>(h: seq<Touch>, said: Touch -> Option<T>, r: Option<T>)
    ensures Latest(h, said, r) <==> r == LatestOf(h, said)
    decreases |h|
  {
    if h != [] {
      var init, t := h[..|h| - 1], h[|h| - 1];
      LatestIsComputed(init, said, LatestOf(init, said));
      LatestStep(init, t, said, LatestOf(init, said));
      assert h == init + [t];
      LatestIsUnique(h, said, r, LatestOf(h, said));
    } else {
      LatestIsUnique(h, said, r, None);
    }
  }

  lemma LatestIsUnique<T>(h: seq<Touch>, said: Touch -> Option<T>, r: Option<T>, s: Option<T>)
    requires Latest(h, said, s)
    ensures Latest(h, said, r) <==> r == s
  {
    if Latest(h, said, r) && r.Some? && s.Some? {
      var i :| 0 <= i < |h| && said(h[i]) == r && forall j :: i < j < |h| ==> said(h[j]).None?;
      var j :| 0 <= j < |h| && said(h[j]) == s && forall l :: j < l < |h| ==> said(h[l]).None?;
      assert i == j;
    }
  }

  lemma {:induction false} LatestInParts<T>(a: seq<Touch>, b: seq<Touch>, said: Touch -> Option<T>)
    ensures LatestOf(a + b, said) == Coalesce(LatestOf(b, said), LatestOf(a, said))
    decreases |b|
  {
    if b == [] {
      assert a + b == a;
    } else {
      assert (a + b)[..|a + b| - 1] == a + b[..|b| - 1];
      LatestInParts(a, b[..|b| - 1], said);
    }
  }

  lemma SendTouchesStep<T>(sends: seq<TraceSend>, k: RowKey, now: Time, said: Touch -> Option<T>)
    requires AllStarted(sends) && sends != []
    ensures var s := sends[|sends| - 1];
            LatestOf(SendTouches(sends, k, now), said)
            == var before := LatestOf(SendTouches(sends[..|sends| - 1], k, now), said);
               if s.Key() == k then Coalesce(said(Sent(s, now)), before) else before
  {
    var before, s := SendTouches(sends[..|sends| - 1], k, now), sends[|sends| - 1];
    assert (before + [Sent(s, now)])[..|before|] == before;
  }

  lemma StubsSayNothing<T>(req: Request, k: RowKey, said: Touch -> Option<T>)
    requires forall t: Touch :: t.Stubbed? ==> said(t).None?
    ensures LatestOf(StubTouches(req, k), said).None?
  {
    var h := StubTouches(req, k);
    if h != [] {
      assert h[..|h| - 1] == [];
    }
  }

  lemma TextStep(h: seq<Touch>, t: Touch, row: TraceRow)
    requires TextReads(h, row.about)
    ensures TextReads(h + [t], Apply(Some(row), t).about)
  {
    var next := Apply(Some(row), t).about;
    assert Latest(h + [t], Name, next.name) by {
      LatestStep(h, t, Name, row.about.name);
    }
    assert Latest(h + [t], UserId, next.userId) by {
      LatestStep(h, t, UserId, row.about.userId);
    }
    assert Latest(h + [t], SessionId, next.sessionId) by {
      LatestStep(h, t, SessionId, row.about.sessionId);
    }
    assert Latest(h + [t], Environment, next.environment) by {
      LatestStep(h, t, Environment, row.about.environment);
    }
    assert Latest(h + [t], Release, next.release) by {
      LatestStep(h, t, Release, row.about.release);
    }
  }

  lemma OtherStep(h: seq<Touch>, t: Touch, row: TraceRow)
    requires OtherReads(h, row)
    ensures OtherReads(h + [t], Apply(Some(row), t))
  {
    LatestStep(h, t, Ended, row.endedAt);
    LatestStep(h, t, Sdk, row.sdkVersion);
    LatestStep(h, t, Tags, NonEmpty(row.about.tags));
  }

  lemma MetadataStep(h: seq<Touch>, t: Touch, row: TraceRow)
    requires MetadataReads(h, row.about.metadata)
    ensures MetadataReads(h + [t], Apply(Some(row), t).about.metadata)
  {
    forall key ensures Latest(h + [t], Meta(key), Lookup(Apply(Some(row), t).about.metadata, key)) {
      LatestStep(h, t, Meta(key), Lookup(row.about.metadata, key));
    }
  }

  lemma StartStep(h: seq<Touch>, t: Touch, row: TraceRow)
    requires h != [] && StartReads(h, row.startedAt)
    ensures StartReads(h + [t], Apply(Some(row), t).startedAt)
  {
    var all := h + [t];
    assert all[|h|] == t && all[0] == h[0];
    if exists i :: 0 <= i < |h| && h[i].Sent? {
      var i :| 0 <= i < |h| && h[i].Sent?;
      assert all[i].Sent?;
      LatestStep(h, t, Start, Some(row.startedAt));
    } else if t.Sent? {
      assert Latest(all, Start, t.send.startedAt);
    } else {
      assert forall i :: 0 <= i < |all| ==> !all[i].Sent?;
    }
  }

  lemma FirstTouchReads(t: Touch)
    ensures RowReads([t], Apply(None, t))
  {
    var row := Apply(None, t);
    assert [t][0] == t;
    forall key ensures Latest([t], Meta(key), Lookup(row.about.metadata, key)) {
    }
  }

  /** One more write to a row that reads right leaves a row that reads right. */
  lemma StepReads(h: seq<Touch>, t: Touch, row: TraceRow)
    requires RowReads(h, row)
    ensures RowReads(h + [t], Apply(Some(row), t))
  {
    TextStep(h, t, row);
    OtherStep(h, t, row);
    MetadataStep(h, t, row);
    StartStep(h, t, row);
    assert (h + [t])[0] == h[0];
  }

  lemma FoldStep(h: seq<Touch>, t: Touch)
    ensures Fold(None, h + [t]) == Some(Apply(Fold(None, h), t))
  {
    assert (h + [t])[..|h|] == h;
  }

  /** The incremental merge is the declarative reading of the writes. */
  lemma {:induction false} FoldReads(h: seq<Touch>)
    requires h != []
    ensures RowReads(h, Fold(None, h).value)
    decreases |h|
  {
    var init, t := h[..|h| - 1], h[|h| - 1];
    FoldStep(init, t);
    assert h == init + [t];
    if init == [] {
      FirstTouchReads(t);
      assert [] + [t] == [t];
    } else {
      FoldReads(init);
      StepReads(init, t, Fold(None, init).value);
    }
  }

  // ---------------------------------------------------------------- the rows sent over a history

  ghost function RowsBy(req: Request): seq<ObsRow> {
    if Admissible(req.batch) then ProposedRows(req) else []
  }

  /** Every observation row accepted over a history, in order. */
  ghost function AllRows(history: seq<Request>): seq<ObsRow> {
    if history == [] then [] else AllRows(history[..|history| - 1]) + RowsBy(history[|history| - 1])
  }

  ghost function ScoresBy(req: Request): seq<ScoreRow> {
    if Admissible(req.batch) then ScoreRows(req.batch.scores, req.project, req.now) else []
  }

  ghost function AllScores(history: seq<Request>): seq<ScoreRow> {
    if history == [] then [] else AllScores(history[..|history| - 1]) + ScoresBy(history[|history| - 1])
  }

  /** Every row was sent by one request. */
  lemma {:induction false} SentByOne(h: seq<Request>)
    ensures forall r :: r in AllRows(h) <==> exists i :: 0 <= i < |h| && r in RowsBy(h[i])
    ensures forall r :: r in AllScores(h) <==> exists i :: 0 <= i < |h| && r in ScoresBy(h[i])
    decreases |h|
  {
    if h != [] {
      var init, last := h[..|h| - 1], h[|h| - 1];
      SentByOne(init);
      assert forall i :: 0 <= i < |h| ==> h[i] == (if i < |init| then init[i] else last);
      forall r ensures r in AllRows(h) <==> exists i :: 0 <= i < |h| && r in RowsBy(h[i]) {
        assert r in RowsBy(last) ==> r in RowsBy(h[|init|]);
      }
      forall r ensures r in AllScores(h) <==> exists i :: 0 <= i < |h| && r in ScoresBy(h[i]) {
        assert r in ScoresBy(last) ==> r in ScoresBy(h[|init|]);
      }
    }
  }

  lemma {:induction false} StoredRows(t: Tables, history: seq<Request>)
    ensures RunFrom(t, history).observations == InsertObservations(t.observations, AllRows(history))
    ensures RunFrom(t, history).scores == InsertScores(t.scores, AllScores(history))
    decreases |history|
  {
    if history != [] {
      var init, last := history[..|history| - 1], history[|history| - 1];
      StoredRows(t, init);
      Router.ObservationsInParts(t.observations, AllRows(init), RowsBy(last));
      Router.ScoresInParts(t.scores, AllScores(init), ScoresBy(last));
    }
  }

  function ObsKeyOf(r: ObsRow): ObsKey {
    r.Key()
  }

  function ScoreKeyOf(r: ScoreRow): RowKey {
    r.Key()
  }

  ghost predicate FirstOf(rows: seq<ObsRow>, key: ObsKey, row: Option<ObsRow>) {
    FirstBy(rows, ObsKeyOf, key, row)
  }

  ghost predicate FirstScoreOf(rows: seq<ScoreRow>, key: RowKey, row: Option<ScoreRow>) {
    FirstBy(rows, ScoreKeyOf, key, row)
  }

  lemma {:induction false} InsertKeepsFirst(rows: seq<ObsRow>, key: ObsKey)
    ensures FirstOf(rows, key, Lookup(InsertObservations(map[], rows), key))
    decreases |rows|
  {
    if rows != [] {
      var init, x := rows[..|rows| - 1], rows[|rows| - 1];
      InsertKeepsFirst(init, key);
      FirstByStep(init, ObsKeyOf, key, Lookup(InsertObservations(map[], init), key), x);
      assert rows == init + [x];
    }
  }

  lemma {:induction false} InsertKeepsFirstScore(rows: seq<ScoreRow>, key: RowKey)
    ensures FirstScoreOf(rows, key, Lookup(InsertScores(map[], rows), key))
    decreases |rows|
  {
    if rows != [] {
      var init, x := rows[..|rows| - 1], rows[|rows| - 1];
      InsertKeepsFirstScore(init, key);
      FirstByStep(init, ScoreKeyOf, key, Lookup(InsertScores(map[], init), key), x);
      assert rows == init + [x];
    }
  }

  /** Observations and scores are first-wins over the whole history. */
  lemma StoredRowsAreFirst(history: seq<Request>)
    ensures forall key :: FirstOf(AllRows(history), key, Lookup(Run(history).observations, key))
    ensures forall key :: FirstScoreOf(AllScores(history), key, Lookup(Run(history).scores, key))
  {
    RunIsRunFromEmpty(history);
    StoredRows(EMPTY, history);
    forall key ensures FirstOf(AllRows(history), key, Lookup(Run(history).observations, key)) {
      InsertKeepsFirst(AllRows(history), key);
    }
    forall key ensures FirstScoreOf(AllScores(history), key, Lookup(Run(history).scores, key)) {
      InsertKeepsFirstScore(AllScores(history), key);
    }
  }
}
