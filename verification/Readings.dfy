/** The stored rows read off the batches themselves: which trace, observation or score of which request put each
    column where it is. */
module Readings {
  import opened Types
  import opened Batches
  import opened Writes
  import opened History
  import opened Windows

  // ---------------------------------------------------------------- what a batch says of a trace

  type Column<!T> = (Request, Trace) -> Option<T>

  function NameSent(req: Request, trace: Trace): Option<string> {
    trace.about.name
  }

  function UserSent(req: Request, trace: Trace): Option<string> {
    trace.about.userId
  }

  function SessionSent(req: Request, trace: Trace): Option<string> {
    trace.about.sessionId
  }

  function EnvironmentSent(req: Request, trace: Trace): Option<string> {
    trace.about.environment
  }

  function ReleaseSent(req: Request, trace: Trace): Option<string> {
    trace.about.release
  }

  function TagsSent(req: Request, trace: Trace): Option<seq<string>> {
    if |trace.about.tags| == 0 then None else Some(trace.about.tags)
  }

  function MetaSent(key: string): Column<Json> {
    (req: Request, trace: Trace) => if key in trace.about.metadata then Some(trace.about.metadata[key]) else None
  }

  function StartSent(req: Request, trace: Trace): Option<Time> {
    trace.startedAt
  }

  function EndSent(req: Request, trace: Trace): Option<Time> {
    trace.endedAt
  }

  /** The header names the SDK, or the body where there is no header or an empty one. */
  function SdkSent(req: Request, trace: Trace): Option<string> {
    if req.sdkHeader == None || req.sdkHeader == Some("") then req.batch.sdkVersion else req.sdkHeader
  }

  /** The j-th trace of a batch that was not refused has this id and project. */
  predicate Carries(req: Request, j: nat, k: RowKey) {
    Admissible(req.batch) && req.project == k.project && j < |req.batch.traces| && req.batch.traces[j].id == k.id
  }

  function Said<T>(req: Request, j: nat, k: RowKey, column: Column<T>): Option<T> {
    if Carries(req, j, k) then column(req, req.batch.traces[j]) else None
  }

  /** r is what the last trace with this id that says anything in the column says, over all batches in order. */
  ghost predicate LastSaid<T>(h: seq<Request>, k: RowKey, column: Column<T>, r: Option<T>) {
    match r
    case None => forall i: nat, j: nat :: 0 <= i < |h| ==> Said(h[i], j, k, column).None?
    case Some(_) =>
      exists i: nat, j: nat :: 0 <= i < |h| && Said(h[i], j, k, column) == r
                     && forall a, b: nat :: 0 <= a < |h| && (i < a || (i == a && j < b)) ==> Said(h[a], b, k, column).None?
  }

  // ---------------------------------------------------------------- the same, computed

  function InBatch<T>(req: Request, k: RowKey, column: Column<T>, n: nat): Option<T> {
    if n == 0 then None else Coalesce(Said(req, n - 1, k, column), InBatch(req, k, column, n - 1))
  }

  function InHistory<T>(h: seq<Request>, k: RowKey, column: Column<T>): Option<T> {
    if h == [] then None
    else
      var last := h[|h| - 1];
      Coalesce(InBatch(last, k, column, |last.batch.traces|), InHistory(h[..|h| - 1], k, column))
  }

  lemma {:induction false} InBatchIsLast<T>(req: Request, k: RowKey, column: Column<T>, n: nat) returns (j: nat)
    ensures var r := InBatch(req, k, column, n);
            if r.None? then forall b: nat :: b < n ==> Said(req, b, k, column).None?
            else j < n && Said(req, j, k, column) == r && forall b: nat :: j < b < n ==> Said(req, b, k, column).None?
    decreases n
  {
    j := 0;
    if n > 0 {
      j := InBatchIsLast(req, k, column, n - 1);
      if Said(req, n - 1, k, column).Some? {
        j := n - 1;
      }
    }
  }

  lemma Overridden<T>(init: seq<Request>, last: Request, k: RowKey, column: Column<T>, j: nat)
    requires Said(last, j, k, column).Some? && forall b: nat :: j < b ==> Said(last, b, k, column).None?
    ensures LastSaid(init + [last], k, column, Said(last, j, k, column))
  {
    var h := init + [last];
    assert Said(h[|init|], j, k, column).Some?;
  }

  lemma LeftAlone<T>(init: seq<Request>, last: Request, k: RowKey, column: Column<T>, r: Option<T>)
    requires LastSaid(init, k, column, r) && forall b: nat :: Said(last, b, k, column).None?
    ensures LastSaid(init + [last], k, column, r)
  {
    var h := init + [last];
    assert forall i :: 0 <= i < |h| ==> h[i] == (if i < |init| then init[i] else last);
    if r.Some? {
      var i: nat, j: nat :| i < |init| && Said(init[i], j, k, column) == r
        && forall a, b: nat :: 0 <= a < |init| && (i < a || (i == a && j < b)) ==> Said(init[a], b, k, column).None?;
      assert Said(h[i], j, k, column) == r;
    }
  }

  lemma {:induction false} InHistoryIsLast<T>(h: seq<Request>, k: RowKey, column: Column<T>)
    ensures LastSaid(h, k, column, InHistory(h, k, column))
    decreases |h|
  {
    if h != [] {
      var init, last := h[..|h| - 1], h[|h| - 1];
      assert h == init + [last];
      var j := InBatchIsLast(last, k, column, |last.batch.traces|);
      if InBatch(last, k, column, |last.batch.traces|).Some? {
        Overridden(init, last, k, column, j);
      } else {
        InHistoryIsLast(init, k, column);
        LeftAlone(init, last, k, column, InHistory(init, k, column));
      }
    }
  }

  // ---------------------------------------------------------------- the writes say what the batches say

  /** What a write says in a column is what the trace behind it says. */
  ghost predicate Tells<T>(said: Touch -> Option<T>, column: Column<T>) {
    && (forall t: Touch :: t.Stubbed? ==> said(t).None?)
    && (forall req: Request, trace: Trace, w: Option<Window> {:trigger Told(said, req, trace, w)} :: trace.startedAt.Some?
          ==> Told(said, req, trace, w) == column(req, trace))
  }

  function Told<T>(said: Touch -> Option<T>, req: Request, trace: Trace, w: Option<Window>): Option<T>
    requires trace.startedAt.Some?
  {
    said(Sent(MakeSend(trace, req.project, EffectiveSdk(req.sdkHeader, req.batch.sdkVersion), w), req.now))
  }

  lemma {:induction false} SendsTell<T>(req: Request, k: RowKey, said: Touch -> Option<T>, column: Column<T>, n: nat)
    requires Tells(said, column) && Admissible(req.batch) && AllStarted(Sends(req)) && n <= |Sends(req)|
    ensures LatestOf(SendTouches(Sends(req)[..n], k, req.now), said) == InBatch(req, k, column, n)
    decreases n
  {
    if n > 0 {
      var trace, s := req.batch.traces[n - 1], Sends(req)[n - 1];
      SendsTell(req, k, said, column, n - 1);
      assert Sends(req)[..n][..n - 1] == Sends(req)[..n - 1];
      SendTouchesStep(Sends(req)[..n], k, req.now, said);
      assert s.startedAt == trace.startedAt;
      assert Told(said, req, trace, s.window) == said(Sent(s, req.now)) == column(req, trace);
    }
  }

  lemma TouchesTell<T>(req: Request, k: RowKey, said: Touch -> Option<T>, column: Column<T>)
    requires Tells(said, column)
    ensures LatestOf(TouchesBy(req, k), said) == InBatch(req, k, column, |req.batch.traces|)
  {
    if Admissible(req.batch) {
      SendsOk(req);
      SendsTell(req, k, said, column, |req.batch.traces|);
      assert Sends(req)[..|req.batch.traces|] == Sends(req);
      StubsSayNothing(req, k, said);
      LatestInParts(SendTouches(Sends(req), k, req.now), StubTouches(req, k), said);
    } else {
      RefusedSaysNothing(req, k, column, |req.batch.traces|);
    }
  }

  lemma {:induction false} RefusedSaysNothing<T>(req: Request, k: RowKey, column: Column<T>, n: nat)
    requires !Admissible(req.batch)
    ensures InBatch(req, k, column, n).None?
    decreases n
  {
    if n > 0 {
      RefusedSaysNothing(req, k, column, n - 1);
    }
  }

  lemma {:induction false} HistoryTells<T>(h: seq<Request>, k: RowKey, said: Touch -> Option<T>, column: Column<T>)
    requires Tells(said, column)
    ensures LatestOf(Touches(h, k), said) == InHistory(h, k, column)
    decreases |h|
  {
    if h != [] {
      var init, last := h[..|h| - 1], h[|h| - 1];
      HistoryTells(init, k, said, column);
      TouchesTell(last, k, said, column);
      LatestInParts(Touches(init, k), TouchesBy(last, k), said);
    }
  }

  lemma ColumnIsLastSaid<T>(h: seq<Request>, k: RowKey, said: Touch -> Option<T>, column: Column<T>, r: Option<T>)
    requires Tells(said, column) && Latest(Touches(h, k), said, r)
    ensures LastSaid(h, k, column, r)
  {
    LatestIsComputed(Touches(h, k), said, r);
    HistoryTells(h, k, said, column);
    InHistoryIsLast(h, k, column);
  }

  ghost predicate TextsLastSent(h: seq<Request>, k: RowKey, about: About) {
    && LastSaid(h, k, NameSent, about.name)
    && LastSaid(h, k, UserSent, about.userId)
    && LastSaid(h, k, SessionSent, about.sessionId)
    && LastSaid(h, k, EnvironmentSent, about.environment)
    && LastSaid(h, k, ReleaseSent, about.release)
  }

  ghost predicate OthersLastSent(h: seq<Request>, k: RowKey, row: TraceRow) {
    && LastSaid(h, k, TagsSent, if row.about.tags == [] then None else Some(row.about.tags))
    && LastSaid(h, k, EndSent, row.endedAt)
    && LastSaid(h, k, SdkSent, row.sdkVersion)
    && forall key :: LastSaid(h, k, MetaSent(key), Lookup(row.about.metadata, key))
  }

  lemma TextsTold(h: seq<Request>, k: RowKey, about: About)
    requires TextReads(Touches(h, k), about)
    ensures TextsLastSent(h, k, about)
  {
    assert LastSaid(h, k, NameSent, about.name) by {
      ColumnIsLastSaid(h, k, Name, NameSent, about.name);
    }
    assert LastSaid(h, k, UserSent, about.userId) by {
      ColumnIsLastSaid(h, k, UserId, UserSent, about.userId);
    }
    assert LastSaid(h, k, SessionSent, about.sessionId) by {
      ColumnIsLastSaid(h, k, SessionId, SessionSent, about.sessionId);
    }
    assert LastSaid(h, k, EnvironmentSent, about.environment) by {
      ColumnIsLastSaid(h, k, Environment, EnvironmentSent, about.environment);
    }
    assert LastSaid(h, k, ReleaseSent, about.release) by {
      ColumnIsLastSaid(h, k, Release, ReleaseSent, about.release);
    }
  }

  lemma OthersTold(h: seq<Request>, k: RowKey, row: TraceRow)
    requires OtherReads(Touches(h, k), row) && MetadataReads(Touches(h, k), row.about.metadata)
    ensures OthersLastSent(h, k, row)
  {
    assert LastSaid(h, k, TagsSent, if row.about.tags == [] then None else Some(row.about.tags)) by {
      ColumnIsLastSaid(h, k, Tags, TagsSent, NonEmpty(row.about.tags));
    }
    assert LastSaid(h, k, EndSent, row.endedAt) by {
      ColumnIsLastSaid(h, k, Ended, EndSent, row.endedAt);
    }
    assert LastSaid(h, k, SdkSent, row.sdkVersion) by {
      ColumnIsLastSaid(h, k, Sdk, SdkSent, row.sdkVersion);
    }
    MetadataTold(h, k, row.about.metadata);
  }

  lemma MetadataTold(h: seq<Request>, k: RowKey, metadata: map<string, Json>)
    requires MetadataReads(Touches(h, k), metadata)
    ensures forall key :: LastSaid(h, k, MetaSent(key), Lookup(metadata, key))
  {
    forall key ensures LastSaid(h, k, MetaSent(key), Lookup(metadata, key)) {
      ColumnIsLastSaid(h, k, Meta(key), MetaSent(key), Lookup(metadata, key));
    }
  }

  /** Every descriptive column of a stored trace is the last value sent for it: an admitted batch that says nothing in
      a column leaves it alone, and one that says something overrides it. */
  lemma ColumnsAreLastSent(h: seq<Request>, k: RowKey)
    requires k in Run(h).traces
    ensures TextsLastSent(h, k, Run(h).traces[k].about) && OthersLastSent(h, k, Run(h).traces[k])
  {
    TraceReading(h, k);
    TextsTold(h, k, Run(h).traces[k].about);
    OthersTold(h, k, Run(h).traces[k]);
  }
}
