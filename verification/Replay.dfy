/** Replaying a whole delivery history on the state it produced. */
module Replay {
  import opened Types
  import opened Batches
  import opened Writes
  import opened History
  import opened Windows
  import opened Delivery

  /** g sends again what h sent, at some other time and under some other pricebook. */
  predicate Echoes(g: Request, h: Request) {
    g.project == h.project && g.batch == h.batch && g.sdkHeader == h.sdkHeader
  }

  ghost predicate Replays(g: seq<Request>, h: seq<Request>) {
    |g| == |h| && forall i :: 0 <= i < |g| ==> Echoes(g[i], h[i])
  }

  /** A trace but for its start and its observations. */
  function Described(trace: Trace): Trace {
    trace.(startedAt := None, observations := [])
  }

  /** g sends again what h sent, except that traces may start elsewhere and observations may differ. */
  predicate Resembles(g: Request, h: Request) {
    && g.project == h.project && g.sdkHeader == h.sdkHeader
    && g.batch.scores == h.batch.scores && g.batch.sdkVersion == h.batch.sdkVersion
    && (Admissible(g.batch) <==> Admissible(h.batch))
    && |g.batch.traces| == |h.batch.traces|
    && forall i :: 0 <= i < |g.batch.traces| ==> Described(g.batch.traces[i]) == Described(h.batch.traces[i])
  }

  ghost predicate Rehearses(g: seq<Request>, h: seq<Request>) {
    |g| == |h| && forall i :: 0 <= i < |g| ==> Resembles(g[i], h[i])
  }

  predicate SameStarts(g: Request, h: Request) {
    |g.batch.traces| == |h.batch.traces|
    && forall i :: 0 <= i < |g.batch.traces| ==> g.batch.traces[i].startedAt == h.batch.traces[i].startedAt
  }

  ghost predicate AllSameStarts(g: seq<Request>, h: seq<Request>) {
    |g| == |h| && forall i :: 0 <= i < |g| ==> SameStarts(g[i], h[i])
  }

  lemma ReplaysRehearse(g: seq<Request>, h: seq<Request>)
    requires Replays(g, h)
    ensures Rehearses(g, h) && AllSameStarts(g, h)
  {
  }

  // ---------------------------------------------------------------- replaying the descriptive columns

  /** A column that only explicit sends speak about, whatever window or clock they carry. */
  ghost predicate SentOnly<T>(said: Touch -> Option<T>) {
    && (forall t: Touch :: t.Stubbed? ==> said(t).None?)
    && (forall s: Touch, t: Touch :: s.Sent? && t.Sent? && s.send.(window := None) == t.send.(window := None)
          ==> said(s) == said(t))
  }

  /** One that does not speak of the start either. */
  ghost predicate Descriptive<T>(said: Touch -> Option<T>) {
    && (forall t: Touch :: t.Stubbed? ==> said(t).None?)
    && (forall s: Touch, t: Touch :: s.Sent? && t.Sent?
          && s.send.(window := None, startedAt := None) == t.send.(window := None, startedAt := None)
          ==> said(s) == said(t))
  }

  ghost predicate SayAlike<T>(a: seq<TraceSend>, b: seq<TraceSend>, now: Time, later: Time, said: Touch -> Option<T>)
    requires AllStarted(a) && AllStarted(b)
  {
    |a| == |b| && forall i :: 0 <= i < |a| ==>
      a[i].Key() == b[i].Key() && said(Sent(a[i], now)) == said(Sent(b[i], later))
  }

  lemma {:induction false} EchoedSends<T>(a: seq<TraceSend>, b: seq<TraceSend>, k: RowKey, now: Time, later: Time,
                                          said: Touch -> Option<T>)
    requires AllStarted(a) && AllStarted(b) && SayAlike(a, b, now, later, said)
    ensures LatestOf(SendTouches(a, k, now), said) == LatestOf(SendTouches(b, k, later), said)
    decreases |a|
  {
    if a != [] {
      var n := |a| - 1;
      EchoedSends(a[..n], b[..n], k, now, later, said);
      SendTouchesStep(a, k, now, said);
      SendTouchesStep(b, k, later, said);
    }
  }

  lemma SendsSayAlike<T>(g: Request, h: Request, said: Touch -> Option<T>)
    requires Resembles(g, h) && (Descriptive(said) || (SentOnly(said) && SameStarts(g, h)))
    requires AllStarted(Sends(g)) && AllStarted(Sends(h))
    ensures SayAlike(Sends(g), Sends(h), g.now, h.now, said)
  {
    var a, b := Sends(g), Sends(h);
    forall i | 0 <= i < |a|
      ensures a[i].Key() == b[i].Key() && said(Sent(a[i], g.now)) == said(Sent(b[i], h.now))
    {
      assert Described(g.batch.traces[i]) == Described(h.batch.traces[i]);
      assert a[i].(window := None, startedAt := None) == b[i].(window := None, startedAt := None);
      assert SameStarts(g, h) ==> a[i].(window := None) == b[i].(window := None);
      var x: Touch, y: Touch := Sent(a[i], g.now), Sent(b[i], h.now);
      assert said(x) == said(y);
    }
  }

  lemma EchoedTouches<T>(g: Request, h: Request, k: RowKey, said: Touch -> Option<T>)
    requires Resembles(g, h) && (Descriptive(said) || (SentOnly(said) && SameStarts(g, h)))
    ensures LatestOf(TouchesBy(g, k), said) == LatestOf(TouchesBy(h, k), said)
  {
    if Admissible(g.batch) {
      SendsOk(g);
      SendsOk(h);
      SendsSayAlike(g, h, said);
      LatestInParts(SendTouches(Sends(g), k, g.now), StubTouches(g, k), said);
      LatestInParts(SendTouches(Sends(h), k, h.now), StubTouches(h, k), said);
      EchoedSends(Sends(g), Sends(h), k, g.now, h.now, said);
      StubsSayNothing(g, k, said);
      StubsSayNothing(h, k, said);
    }
  }

  /** The last thing a replay says in a column is the last thing the history said, starts included when they are
      sent again. */
  lemma {:induction false} ReplaySaysTheSame<T>(g: seq<Request>, h: seq<Request>, k: RowKey, said: Touch -> Option<T>)
    requires Rehearses(g, h) && (Descriptive(said) || (SentOnly(said) && AllSameStarts(g, h)))
    ensures LatestOf(Touches(g, k), said) == LatestOf(Touches(h, k), said)
    decreases |g|
  {
    if g != [] {
      var n := |g| - 1;
      ReplaySaysTheSame(g[..n], h[..n], k, said);
      EchoedTouches(g[n], h[n], k, said);
      LatestInParts(Touches(g[..n], k), TouchesBy(g[n], k), said);
      LatestInParts(Touches(h[..n], k), TouchesBy(h[n], k), said);
    }
  }

  /** A column after the replay is what it was before. */
  lemma ColumnUnmoved<T>(g: seq<Request>, h: seq<Request>, k: RowKey, said: Touch -> Option<T>, r: Option<T>, s: Option<T>)
    requires Descriptive(said) && Rehearses(g, h)
    requires Latest(Touches(h, k), said, r) && Latest(Touches(h, k) + Touches(g, k), said, s)
    ensures r == s
  {
    ReplaySaysTheSame(g, h, k, said);
    LatestInParts(Touches(h, k), Touches(g, k), said);
    LatestIsComputed(Touches(h, k), said, r);
    LatestIsComputed(Touches(h, k) + Touches(g, k), said, s);
  }

  lemma TextUnmoved(g: seq<Request>, h: seq<Request>, k: RowKey, about: About, after: About)
    requires Rehearses(g, h) && TextReads(Touches(h, k), about) && TextReads(Touches(h, k) + Touches(g, k), after)
    ensures about.name == after.name && about.userId == after.userId && about.sessionId == after.sessionId
    ensures about.environment == after.environment && about.release == after.release
  {
    ColumnUnmoved(g, h, k, Name, about.name, after.name);
    ColumnUnmoved(g, h, k, UserId, about.userId, after.userId);
    ColumnUnmoved(g, h, k, SessionId, about.sessionId, after.sessionId);
    ColumnUnmoved(g, h, k, Environment, about.environment, after.environment);
    ColumnUnmoved(g, h, k, Release, about.release, after.release);
  }

  lemma OthersUnmoved(g: seq<Request>, h: seq<Request>, k: RowKey, row: TraceRow, after: TraceRow)
    requires Rehearses(g, h) && OtherReads(Touches(h, k), row) && OtherReads(Touches(h, k) + Touches(g, k), after)
    ensures row.about.tags == after.about.tags && row.endedAt == after.endedAt && row.sdkVersion == after.sdkVersion
  {
    ColumnUnmoved(g, h, k, Tags, NonEmpty(row.about.tags), NonEmpty(after.about.tags));
    ColumnUnmoved(g, h, k, Ended, row.endedAt, after.endedAt);
    ColumnUnmoved(g, h, k, Sdk, row.sdkVersion, after.sdkVersion);
  }

  lemma MetadataUnmoved(g: seq<Request>, h: seq<Request>, k: RowKey, m: map<string, Json>, after: map<string, Json>)
    requires Rehearses(g, h) && MetadataReads(Touches(h, k), m) && MetadataReads(Touches(h, k) + Touches(g, k), after)
    ensures m == after
  {
    forall key ensures Lookup(m, key) == Lookup(after, key) {
      ColumnUnmoved(g, h, k, Meta(key), Lookup(m, key), Lookup(after, key));
    }
    SameEverywhere(m, after);
  }

  lemma AboutUnmoved(g: seq<Request>, h: seq<Request>, k: RowKey, row: TraceRow, after: TraceRow)
    requires Rehearses(g, h) && RowReads(Touches(h, k), row) && RowReads(Touches(h, k) + Touches(g, k), after)
    ensures row.about == after.about && row.endedAt == after.endedAt && row.sdkVersion == after.sdkVersion
  {
    TextUnmoved(g, h, k, row.about, after.about);
    OthersUnmoved(g, h, k, row, after);
    MetadataUnmoved(g, h, k, row.about.metadata, after.about.metadata);
  }

  lemma {:induction false} SentMeansStarted(h: seq<Touch>)
    ensures LatestOf(h, Start).Some? <==> exists i :: 0 <= i < |h| && h[i].Sent?
  {
    LatestIsComputed(h, Start, LatestOf(h, Start));
    assert forall i :: 0 <= i < |h| ==> (h[i].Sent? <==> Start(h[i]).Some?);
  }

  /** Whether a write is explicit. */
  function Explicitly(t: Touch): Option<bool> {
    if t.Sent? then Some(true) else None
  }

  lemma {:induction false} SentMeansExplicit(h: seq<Touch>)
    ensures LatestOf(h, Explicitly).Some? <==> LatestOf(h, Start).Some?
    decreases |h|
  {
    if h != [] {
      SentMeansExplicit(h[..|h| - 1]);
      assert h[|h| - 1].Sent? ==> Start(h[|h| - 1]).Some?;
    }
  }

  /** The stored start is the last one sent, when one was. */
  lemma StartIsLatest(h: seq<Touch>, startedAt: Time)
    requires h != [] && StartReads(h, startedAt)
    ensures LatestOf(h, Start).Some? ==> LatestOf(h, Start) == Some(startedAt)
    ensures LatestOf(h, Start).None? ==> h[0].Stubbed? && startedAt == h[0].window.lo
  {
    SentMeansStarted(h);
    if LatestOf(h, Start).Some? {
      LatestIsComputed(h, Start, Some(startedAt));
    }
  }

  /** Writes that send a start when those before them did keep it exactly when their last word on it is the same. */
  lemma StartKeptIff(a: seq<Touch>, b: seq<Touch>, startedAt: Time, after: Time)
    requires a != [] && StartReads(a, startedAt) && StartReads(a + b, after)
    requires LatestOf(a, Start).Some? <==> LatestOf(b, Start).Some?
    ensures startedAt == after <==> LatestOf(b, Start) == LatestOf(a, Start)
  {
    LatestInParts(a, b, Start);
    StartIsLatest(a, startedAt);
    StartIsLatest(a + b, after);
    assert (a + b)[0] == a[0];
  }

  lemma BothSent(g: seq<Request>, h: seq<Request>, k: RowKey)
    requires Rehearses(g, h)
    ensures LatestOf(Touches(h, k), Start).Some? <==> LatestOf(Touches(g, k), Start).Some?
  {
    ReplaySaysTheSame(g, h, k, Explicitly);
    SentMeansExplicit(Touches(g, k));
    SentMeansExplicit(Touches(h, k));
  }

  // ---------------------------------------------------------------- replaying the rows

  lemma ReplayedScore(g: seq<Request>, h: seq<Request>, r: ScoreRow) returns (s: ScoreRow)
    requires Rehearses(g, h) && r in AllScores(g)
    ensures s in AllScores(h) && s.Key() == r.Key()
  {
    SentByOne(g);
    SentByOne(h);
    var i :| 0 <= i < |g| && r in ScoresBy(g[i]);
    EchoedScore(g[i].batch.scores, g[i].project, h[i].now, g[i].now, r);
    s :| s in ScoresBy(h[i]) && s.Key() == r.Key();
  }

  lemma {:induction false} InsertNothingNew(t: map<ObsKey, ObsRow>, rows: seq<ObsRow>)
    requires forall r :: r in rows ==> r.Key() in t
    ensures InsertObservations(t, rows) == t
    decreases |rows|
  {
    if rows != [] {
      assert rows[|rows| - 1] in rows;
      InsertNothingNew(t, rows[..|rows| - 1]);
    }
  }

  lemma {:induction false} InsertNoNewScore(t: map<RowKey, ScoreRow>, rows: seq<ScoreRow>)
    requires forall r :: r in rows ==> r.Key() in t
    ensures InsertScores(t, rows) == t
    decreases |rows|
  {
    if rows != [] {
      assert rows[|rows| - 1] in rows;
      InsertNoNewScore(t, rows[..|rows| - 1]);
    }
  }

  lemma {:induction false} InsertedKeys(t: map<ObsKey, ObsRow>, rows: seq<ObsRow>)
    ensures forall r :: r in rows ==> r.Key() in InsertObservations(t, rows)
    ensures forall key :: key in t ==> key in InsertObservations(t, rows)
    decreases |rows|
  {
    if rows != [] {
      InsertedKeys(t, rows[..|rows| - 1]);
    }
  }

  /** No replay adds a score, and one adds no observation if and only if the key of every row it accepts is
      stored already. */
  lemma ReplayAddsNoRows(g: seq<Request>, h: seq<Request>)
    requires Rehearses(g, h)
    ensures RunFrom(Run(h), g).scores == Run(h).scores
    ensures RunFrom(Run(h), g).observations == Run(h).observations
            <==> forall r :: r in AllRows(g) ==> r.Key() in Run(h).observations
  {
    StoredKeys(h);
    StoredRows(Run(h), g);
    forall r | r in AllScores(g) ensures r.Key() in Run(h).scores {
      var s := ReplayedScore(g, h, r);
    }
    InsertNoNewScore(Run(h).scores, AllScores(g));
    InsertedKeys(Run(h).observations, AllRows(g));
    if forall r :: r in AllRows(g) ==> r.Key() in Run(h).observations {
      InsertNothingNew(Run(h).observations, AllRows(g));
    }
  }

  /** The store has taken the row in already: its key is stored, and its start lies in the window of its trace. */
  ghost predicate Absorbed(t: Tables, r: ObsRow) {
    && r.Key() in t.observations
    && TraceKey(r) in t.traces
    && var row := t.traces[TraceKey(r)];
       row.obsMin.Some? && row.obsMax.Some? && row.obsMin.value <= r.startedAt <= row.obsMax.value
  }

  ghost predicate AllAbsorbed(t: Tables, rows: seq<ObsRow>) {
    forall r :: r in rows ==> Absorbed(t, r)
  }

  /** Absorbed rows widen nothing, and rows that widen nothing lie in their windows. */
  lemma WidensNothingIffInside(t: Tables, g: seq<Request>, k: RowKey)
    ensures (MinOf(Lookup(RunFrom(t, g).traces, k)) == MinOf(Lookup(t.traces, k))
             && MaxOf(Lookup(RunFrom(t, g).traces, k)) == MaxOf(Lookup(t.traces, k)))
            <==> forall r :: r in AllRows(g) && TraceKey(r) == k ==>
                   Inside(MinOf(Lookup(t.traces, k)), MaxOf(Lookup(t.traces, k)), r.startedAt)
  {
    WindowFrom(t, g, k);
    SpanIsMinMax(AllRows(g), k);
    assert forall i :: 0 <= i < |AllRows(g)| ==> AllRows(g)[i] in AllRows(g);
  }

  predicate Inside(lo: Option<Time>, hi: Option<Time>, at: Time) {
    lo.Some? && hi.Some? && lo.value <= at <= hi.value
  }

  /** Every column of every table is as before, but for updated_at. */
  ghost predicate Unmoved(t: Tables, u: Tables) {
    && u.observations == t.observations && u.scores == t.scores
    && u.traces.Keys == t.traces.Keys
    && forall k :: k in t.traces ==> u.traces[k] == t.traces[k].(updatedAt := u.traces[k].updatedAt)
  }

  lemma ReplayTouchesNoOther(g: seq<Request>, h: seq<Request>, k: RowKey)
    requires Rehearses(g, h) && AllAbsorbed(Run(h), AllRows(g)) && Touches(g, k) != []
    ensures Touches(h, k) != []
  {
    TouchedIffMentioned(g, k);
    TouchedIffMentioned(h, k);
    var i :| 0 <= i < |g| && Mentions(g[i], k);
    if k.id in ExplicitIds(g[i].batch) {
      SameExplicitIds(g[i], h[i], k.id);
      assert Mentions(h[i], k);
    } else {
      var r :| r in RowsBy(g[i]) && r.traceId == k.id;
      ProposedProject(g[i]);
      SentByOne(g);
      assert r in AllRows(g) && TraceKey(r) == k;
      RunAt(h, k);
    }
  }

  lemma SameExplicitIds(g: Request, h: Request, id: Id)
    requires Resembles(g, h)
    ensures id in ExplicitIds(g.batch) <==> id in ExplicitIds(h.batch)
  {
    assert forall i :: 0 <= i < |g.batch.traces| ==>
      Described(g.batch.traces[i]).id == g.batch.traces[i].id == h.batch.traces[i].id;
  }

  /** The replay has the last word on the start that the history had. */
  ghost predicate StartStands(g: seq<Request>, h: seq<Request>, k: RowKey) {
    LatestOf(Touches(g, k), Start) == LatestOf(Touches(h, k), Start)
  }

  lemma ReplayAt(g: seq<Request>, h: seq<Request>, k: RowKey)
    requires Rehearses(g, h) && AllAbsorbed(Run(h), AllRows(g))
    ensures var t, u := Run(h), RunFrom(Run(h), g);
            && (k in u.traces <==> k in t.traces)
            && (k !in t.traces ==> StartStands(g, h, k))
            && (k in t.traces ==>
                  (StartStands(g, h, k) <==> u.traces[k] == t.traces[k].(updatedAt := u.traces[k].updatedAt)))
  {
    var t, u := Run(h), RunFrom(Run(h), g);
    var a, b := Touches(h, k), Touches(g, k);
    RunAt(h, k);
    RunFromAt(t, g, k);
    FoldInParts(None, a, b);
    if a == [] {
      if b != [] {
        ReplayTouchesNoOther(g, h, k);
      }
    } else {
      FoldReads(a);
      FoldReads(a + b);
      AboutUnmoved(g, h, k, t.traces[k], u.traces[k]);
      BothSent(g, h, k);
      StartKeptIff(a, b, t.traces[k].startedAt, u.traces[k].startedAt);
      assert (a + b)[0] == a[0];
      WidensNothingIffInside(t, g, k);
    }
  }

  lemma UnmovedMeansAbsorbed(t: Tables, g: seq<Request>)
    requires Unmoved(t, RunFrom(t, g))
    ensures AllAbsorbed(t, AllRows(g))
  {
    var u := RunFrom(t, g);
    StoredRows(t, g);
    InsertedKeys(t.observations, AllRows(g));
    forall r | r in AllRows(g) ensures Absorbed(t, r) {
      var k := TraceKey(r);
      assert r.Key() in u.observations;
      WidensNothingIffInside(t, g, k);
      assert k in t.traces ==> u.traces[k] == t.traces[k].(updatedAt := u.traces[k].updatedAt);
    }
  }

  /** Sending a history again on the state it produced, with starts and observations as they may be by then, changes
      no column but updated_at if and only if the store has already taken in every row that is accepted now, and the
      last start sent for each trace is the one that was sent last before. */
  lemma RehearsalIsNoOp(g: seq<Request>, h: seq<Request>)
    requires Rehearses(g, h)
    ensures Unmoved(Run(h), RunFrom(Run(h), g))
            <==> AllAbsorbed(Run(h), AllRows(g)) && forall k :: StartStands(g, h, k)
  {
    var t, u := Run(h), RunFrom(Run(h), g);
    if Unmoved(t, u) {
      UnmovedMeansAbsorbed(t, g);
    }
    if AllAbsorbed(t, AllRows(g)) {
      ReplayAddsNoRows(g, h);
      forall k ensures k in u.traces <==> k in t.traces
        ensures k !in t.traces ==> StartStands(g, h, k)
        ensures k in t.traces ==>
                  (StartStands(g, h, k) <==> u.traces[k] == t.traces[k].(updatedAt := u.traces[k].updatedAt))
      {
        ReplayAt(g, h, k);
      }
    }
  }

  /** Replaying a whole history on the state it produced changes no column but updated_at if and only if the
      store has already taken in every row the replay accepts. */
  lemma ReplayIsNoOp(g: seq<Request>, h: seq<Request>)
    requires Replays(g, h)
    ensures Unmoved(Run(h), RunFrom(Run(h), g)) <==> AllAbsorbed(Run(h), AllRows(g))
  {
    ReplaysRehearse(g, h);
    forall k ensures StartStands(g, h, k) {
      ReplaySaysTheSame(g, h, k, Start);
    }
    RehearsalIsNoOp(g, h);
  }

  // ---------------------------------------------------------------- when the rows are absorbed

  /** Whatever the request accepts when served was acceptable at the earlier time too. */
  predicate AcceptsNoMore(req: Request, before: Time) {
    forall j :: 0 <= j < |Pairs(req.batch)| && Accepts(Pairs(req.batch)[j], req.now)
      ==> Accepts(Pairs(req.batch)[j], before)
  }

  /** No observation refused at its first delivery is accepted at its second. */
  ghost predicate NothingNewlyAccepted(g: seq<Request>, h: seq<Request>) {
    |g| == |h| && forall i :: 0 <= i < |g| ==> AcceptsNoMore(g[i], h[i].now)
  }

  lemma ReplayedRow(g: seq<Request>, h: seq<Request>, r: ObsRow) returns (s: ObsRow)
    requires Replays(g, h) && NothingNewlyAccepted(g, h) && r in AllRows(g)
    ensures s in AllRows(h) && SamePlace(r, s)
  {
    SentByOne(g);
    SentByOne(h);
    var i :| 0 <= i < |g| && r in RowsBy(g[i]);
    EchoedRow(Pairs(g[i].batch), Pairs(h[i].batch), g[i], h[i], r);
    s :| s in ProposedRows(h[i]) && SamePlace(r, s);
    assert s in RowsBy(h[i]);
  }

  /** A row accepted over a history has been taken in. */
  lemma SentIsAbsorbed(h: seq<Request>, r: ObsRow)
    requires r in AllRows(h)
    ensures Absorbed(Run(h), r)
  {
    StoredKeys(h);
    WindowReads(h, TraceKey(r));
    SpanIsMinMax(AllRows(h), TraceKey(r));
  }

  /** In particular a replay at which nothing formerly refused gets in is a no-op. */
  lemma RefusedStaysRefused(g: seq<Request>, h: seq<Request>)
    requires Replays(g, h) && NothingNewlyAccepted(g, h)
    ensures Unmoved(Run(h), RunFrom(Run(h), g))
  {
    forall r | r in AllRows(g) ensures Absorbed(Run(h), r) {
      var s := ReplayedRow(g, h, r);
      SentIsAbsorbed(h, s);
    }
    ReplayIsNoOp(g, h);
  }

  lemma {:induction false} RefusedRows(pairs: seq<Pair>, req: Request)
    requires forall i :: 0 <= i < |pairs| ==> !Accepts(pairs[i], req.now)
    ensures AcceptedRows(pairs, req.project, req.now, req.book) == []
    decreases |pairs|
  {
    if pairs != [] {
      RefusedRows(pairs[..|pairs| - 1], req);
    }
  }

  lemma NoRows(req: Request, o: Obs)
    requires req.batch.traces == [] && req.batch.observations == [o]
    requires o.startedAt.Some? && !InWindow(o.startedAt.value, req.now)
    ensures RowsBy(req) == []
  {
    assert Pairs(req.batch) == [(o, None)];
    RefusedRows(Pairs(req.batch), req);
  }

  lemma RowsOfOne(req: Request)
    ensures AllRows([req]) == RowsBy(req)
  {
    assert [req][..0] == [];
  }

  /** A batch whose observation was refused for lying too far ahead stores it when it is replayed later. */
  lemma LateReplayStores(g: Request, h: Request, o: Obs)
    requires Echoes(g, h) && h.batch.traces == [] && h.batch.observations == [o] && o.startedAt.Some?
    requires !InWindow(o.startedAt.value, h.now) && InWindow(o.startedAt.value, g.now)
    ensures Replays([g], [h]) && !Unmoved(Run([h]), RunFrom(Run([h]), [g]))
  {
    var r := MakeRow((o, None), g.project, g.book);
    NoRows(h, o);
    OneObservation(g, o);
    RowsOfOne(h);
    RowsOfOne(g);
    assert r in AllRows([g]);
    StoredKeys([h]);
    ReplayIsNoOp([g], [h]);
  }

  /** So it is with a start a microsecond beyond what is accepted at time zero, replayed a microsecond later. */
  lemma LateReplayIsNoNoOp()
    ensures var o := Repeated(3).(startedAt := Some(MAX_FUTURE + 1));
            var h, g := Sending(o), Sending(o).(now := 1);
            Replays([g], [h]) && !Unmoved(Run([h]), RunFrom(Run([h]), [g]))
  {
    var o := Repeated(3).(startedAt := Some(MAX_FUTURE + 1));
    LateReplayStores(Sending(o).(now := 1), Sending(o), o);
  }
}
