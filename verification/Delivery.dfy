/** At-least-once, out-of-order delivery: what a different order or repetition may change. */
module Delivery {
  import opened Types
  import opened Batches
  import opened Writes
  import opened History
  import opened Windows

  // ---------------------------------------------------------------- rows of the same payload

  /** The same place: same key, same trace, same start. Costs may differ, for prices may have. */
  predicate SamePlace(r: ObsRow, s: ObsRow) {
    r.Key() == s.Key() && r.traceId == s.traceId
  }

  /** An observation with the trace and the start it is stored under. */
  function Resolved(pair: Pair): Obs {
    pair.0.(traceId := Some(TraceOf(pair)), startedAt := StartOf(pair))
  }

  function AllResolved(pairs: seq<Pair>): (r: seq<Obs>)
    ensures |r| == |pairs| && forall i :: 0 <= i < |pairs| ==> r[i] == Resolved(pairs[i])
  {
    seq(|pairs|, i requires 0 <= i < |pairs| => Resolved(pairs[i]))
  }

  /** Whatever g accepts of a stands among what h accepts of b, when both resolve alike. */
  lemma {:induction false} EchoedRow(a: seq<Pair>, b: seq<Pair>, g: Request, h: Request, r: ObsRow)
    requires g.project == h.project && AllResolved(a) == AllResolved(b)
    requires forall i :: 0 <= i < |a| && Accepts(a[i], g.now) ==> Accepts(b[i], h.now)
    requires r in AcceptedRows(a, g.project, g.now, g.book)
    ensures exists s :: s in AcceptedRows(b, h.project, h.now, h.book) && SamePlace(r, s)
    decreases |a|
  {
    var n := |a| - 1;
    var x, y := a[n], b[n];
    assert |a| == |AllResolved(a)| == |b|;
    if r in AcceptedRows(a[..n], g.project, g.now, g.book) {
      assert AllResolved(a[..n]) == AllResolved(a)[..n] && AllResolved(b[..n]) == AllResolved(b)[..n];
      EchoedRow(a[..n], b[..n], g, h, r);
      var s :| s in AcceptedRows(b[..n], h.project, h.now, h.book) && SamePlace(r, s);
      assert s in AcceptedRows(b, h.project, h.now, h.book);
    } else {
      assert Accepts(y, h.now) && Resolved(x) == AllResolved(a)[n] == AllResolved(b)[n] == Resolved(y);
      var s := MakeRow(y, h.project, h.book);
      assert s in AcceptedRows(b, h.project, h.now, h.book) && SamePlace(r, s);
    }
  }

  function Place(r: ObsRow): (ObsKey, Id) {
    (r.Key(), r.traceId)
  }

  function Places(rows: seq<ObsRow>): set<(ObsKey, Id)> {
    set r | r in rows :: Place(r)
  }

  /** Every row of a has a row of b in the same place. */
  predicate PlacedIn(a: seq<ObsRow>, b: seq<ObsRow>) {
    Places(a) <= Places(b)
  }

  lemma PlacedRow(a: seq<ObsRow>, b: seq<ObsRow>, r: ObsRow) returns (s: ObsRow)
    requires PlacedIn(a, b) && r in a
    ensures s in b && SamePlace(r, s)
  {
    assert Place(r) in Places(b);
    s :| s in b && Place(s) == Place(r);
  }

  lemma RowsHavePlaces(a: seq<ObsRow>, b: seq<ObsRow>)
    requires forall r :: r in a ==> exists s :: s in b && SamePlace(r, s)
    ensures PlacedIn(a, b)
  {
    forall p | p in Places(a) ensures p in Places(b) {
      var r :| r in a && Place(r) == p;
      var s :| s in b && SamePlace(r, s);
      assert Place(s) == p;
    }
  }

  /** A span takes in the span of rows whose places it has seen. */
  lemma SpanWithin(a: seq<ObsRow>, b: seq<ObsRow>, k: RowKey)
    requires PlacedIn(a, b)
    ensures Least(Lo(Span(b, k)), Lo(Span(a, k))) == Lo(Span(b, k))
    ensures Greatest(Hi(Span(b, k)), Hi(Span(a, k))) == Hi(Span(b, k))
  {
    SpanIsMinMax(a, k);
    SpanIsMinMax(b, k);
    forall i | 0 <= i < |a| && TraceKey(a[i]) == k ensures Encloses(Span(b, k), a[i].startedAt) {
      var s := PlacedRow(a, b, a[i]);
    }
  }

  lemma BoundsAgree(v: Option<Window>, w: Option<Window>)
    requires Least(Lo(w), Lo(v)) == Lo(w) && Greatest(Hi(w), Hi(v)) == Hi(w)
    requires Least(Lo(v), Lo(w)) == Lo(v) && Greatest(Hi(v), Hi(w)) == Hi(v)
    ensures v == w
  {
  }

  lemma SpanOfSamePlaces(a: seq<ObsRow>, b: seq<ObsRow>, k: RowKey)
    requires PlacedIn(a, b) && PlacedIn(b, a)
    ensures Span(a, k) == Span(b, k)
  {
    SpanWithin(a, b, k);
    SpanWithin(b, a, k);
    BoundsAgree(Span(a, k), Span(b, k));
  }

  lemma SpanOfSameRows(a: seq<ObsRow>, b: seq<ObsRow>, k: RowKey)
    requires forall r :: r in a <==> r in b
    ensures Span(a, k) == Span(b, k)
  {
    assert Places(a) == Places(b);
    SpanOfSamePlaces(a, b, k);
  }

  lemma {:induction false} StampedScoresAgree(scores: seq<Score>, project: Id, received: Time, later: Time)
    requires Stamped(scores)
    ensures ScoreRows(scores, project, received) == ScoreRows(scores, project, later)
    decreases |scores|
  {
    if scores != [] {
      StampedScoresAgree(scores[..|scores| - 1], project, received, later);
    }
  }

  // ---------------------------------------------------------------- any order, any repetition

  /** Nothing in the request is refused for its age at the moment it is served. */
  predicate Punctual(req: Request) {
    forall i :: 0 <= i < |Pairs(req.batch)| && StartOf(Pairs(req.batch)[i]).Some?
      ==> Accepts(Pairs(req.batch)[i], req.now)
  }

  /** Every usable score carries the client's own timestamp. */
  predicate Stamped(scores: seq<Score>) {
    forall i :: 0 <= i < |scores| && scores[i].HasTarget() ==> scores[i].scoredAt.Some?
  }

  /** What counts of a batch for which rows are stored where: whether it is written at all, the traces it carries,
      its observations with the trace and start they are stored under, and its scores. */
  datatype Outline = Outline(admissible: bool, traces: set<Id>, observations: seq<Obs>, scores: seq<Score>)

  function OutlineOf(batch: Batch): Outline {
    Outline(Admissible(batch), ExplicitIds(batch), AllResolved(Pairs(batch)), batch.scores)
  }

  /** What a delivery carries, whenever it is served and whatever the prices are by then. */
  function Payload(req: Request): (Id, Outline) {
    (req.project, OutlineOf(req.batch))
  }

  ghost function Payloads(h: seq<Request>): set<(Id, Outline)> {
    set i | 0 <= i < |h| :: Payload(h[i])
  }

  ghost predicate AllPunctual(h: seq<Request>) {
    forall i :: 0 <= i < |h| ==> Punctual(h[i])
  }

  ghost predicate AllStamped(h: seq<Request>) {
    forall i :: 0 <= i < |h| ==> Stamped(h[i].batch.scores)
  }

  function ScoreKeys(rows: seq<ScoreRow>): set<RowKey> {
    set r | r in rows :: r.Key()
  }

  /** A key always names the same row. */
  ghost predicate RowConsistent(rows: seq<ObsRow>) {
    forall r, s :: r in rows && s in rows && r.Key() == s.Key() ==> r == s
  }

  ghost predicate ScoreConsistent(rows: seq<ScoreRow>) {
    forall r, s :: r in rows && s in rows && r.Key() == s.Key() ==> r == s
  }

  lemma {:induction false} EchoedScore(scores: seq<Score>, project: Id, received: Time, later: Time, r: ScoreRow)
    requires r in ScoreRows(scores, project, later)
    ensures exists s :: s in ScoreRows(scores, project, received) && s.Key() == r.Key()
    decreases |scores|
  {
    var init, score := scores[..|scores| - 1], scores[|scores| - 1];
    if r in ScoreRows(init, project, later) {
      EchoedScore(init, project, received, later, r);
      var s :| s in ScoreRows(init, project, received) && s.Key() == r.Key();
      assert s in ScoreRows(scores, project, received);
    } else {
      assert MakeScore(score, project, received) in ScoreRows(scores, project, received);
    }
  }

  lemma EchoedScoreKeys(scores: seq<Score>, project: Id, received: Time, later: Time)
    ensures ScoreKeys(ScoreRows(scores, project, later)) <= ScoreKeys(ScoreRows(scores, project, received))
  {
    forall key | key in ScoreKeys(ScoreRows(scores, project, later))
      ensures key in ScoreKeys(ScoreRows(scores, project, received))
    {
      var r :| r in ScoreRows(scores, project, later) && r.Key() == key;
      EchoedScore(scores, project, received, later, r);
    }
  }

  lemma PayloadFixesRows(a: Request, b: Request)
    requires Payload(a) == Payload(b) && Punctual(a) && Punctual(b)
    ensures PlacedIn(RowsBy(a), RowsBy(b)) && ScoreKeys(ScoresBy(a)) <= ScoreKeys(ScoresBy(b))
    ensures Stamped(a.batch.scores) ==> ScoresBy(a) == ScoresBy(b)
    ensures forall k :: Mentions(a, k) ==> Mentions(b, k)
  {
    var x, y := Pairs(a.batch), Pairs(b.batch);
    EchoedScoreKeys(a.batch.scores, a.project, b.now, a.now);
    if Stamped(a.batch.scores) {
      StampedScoresAgree(a.batch.scores, a.project, a.now, b.now);
    }
    assert |x| == |AllResolved(x)| == |AllResolved(y)| == |y|;
    forall i | 0 <= i < |x| && Accepts(x[i], a.now) ensures Accepts(y[i], b.now) {
      assert Resolved(x[i]) == AllResolved(x)[i] == AllResolved(y)[i] == Resolved(y[i]);
    }
    forall r | r in RowsBy(a) ensures exists s :: s in RowsBy(b) && SamePlace(r, s) {
      EchoedRow(x, y, a, b, r);
    }
    RowsHavePlaces(RowsBy(a), RowsBy(b));
    forall k | Mentions(a, k) ensures Mentions(b, k) {
      if k.id in TraceIds(ProposedRows(a)) {
        var r :| r in RowsBy(a) && r.traceId == k.id;
        var s := PlacedRow(RowsBy(a), RowsBy(b), r);
      }
    }
  }

  lemma Redelivered(g: seq<Request>, h: seq<Request>)
    requires Payloads(g) <= Payloads(h) && AllPunctual(g) && AllPunctual(h)
    ensures PlacedIn(AllRows(g), AllRows(h))
    ensures ScoreKeys(AllScores(g)) <= ScoreKeys(AllScores(h))
    ensures forall k :: k in Run(g).traces ==> k in Run(h).traces
  {
    SentByOne(g);
    SentByOne(h);
    forall r | r in AllRows(g) ensures exists s :: s in AllRows(h) && SamePlace(r, s) {
      var i :| 0 <= i < |g| && r in RowsBy(g[i]);
      var j := Redelivery(g, h, i);
      var s := PlacedRow(RowsBy(g[i]), RowsBy(h[j]), r);
      assert s in AllRows(h);
    }
    RowsHavePlaces(AllRows(g), AllRows(h));
    forall key | key in ScoreKeys(AllScores(g)) ensures key in ScoreKeys(AllScores(h)) {
      var r :| r in AllScores(g) && r.Key() == key;
      var i :| 0 <= i < |g| && r in ScoresBy(g[i]);
      var j := Redelivery(g, h, i);
      assert key in ScoreKeys(ScoresBy(g[i]));
      var s :| s in ScoresBy(h[j]) && s.Key() == key;
      assert s in AllScores(h);
    }
    forall k | k in Run(g).traces ensures k in Run(h).traces {
      TraceReading(g, k);
      TraceReading(h, k);
      var i :| 0 <= i < |g| && Mentions(g[i], k);
      var j := Redelivery(g, h, i);
      assert Mentions(h[j], k);
    }
  }

  lemma Redelivery(g: seq<Request>, h: seq<Request>, i: nat) returns (j: nat)
    requires Payloads(g) <= Payloads(h) && AllPunctual(g) && AllPunctual(h) && i < |g|
    ensures j < |h| && PlacedIn(RowsBy(g[i]), RowsBy(h[j])) && ScoreKeys(ScoresBy(g[i])) <= ScoreKeys(ScoresBy(h[j]))
    ensures Stamped(g[i].batch.scores) ==> ScoresBy(g[i]) == ScoresBy(h[j])
    ensures forall k :: Mentions(g[i], k) ==> Mentions(h[j], k)
  {
    assert Payload(g[i]) in Payloads(h);
    j :| 0 <= j < |h| && Payload(h[j]) == Payload(g[i]);
    PayloadFixesRows(g[i], h[j]);
  }

  lemma RedeliveredScores(g: seq<Request>, h: seq<Request>)
    requires Payloads(g) <= Payloads(h) && AllPunctual(g) && AllPunctual(h) && AllStamped(g)
    ensures forall r :: r in AllScores(g) ==> r in AllScores(h)
  {
    SentByOne(g);
    SentByOne(h);
    forall r | r in AllScores(g) ensures r in AllScores(h) {
      var i :| 0 <= i < |g| && r in ScoresBy(g[i]);
      var j := Redelivery(g, h, i);
      assert r in ScoresBy(h[j]);
    }
  }

  ghost predicate SameWindows(t: Tables, u: Tables) {
    && t.traces.Keys == u.traces.Keys
    && forall k :: k in t.traces ==>
         t.traces[k].obsMin == u.traces[k].obsMin && t.traces[k].obsMax == u.traces[k].obsMax
  }

  /** The stored observation keys are those of the rows accepted, and likewise for scores. */
  lemma StoredKeys(h: seq<Request>)
    ensures forall key :: key in Run(h).observations <==> exists r :: r in AllRows(h) && r.Key() == key
    ensures forall key :: key in Run(h).scores <==> exists r :: r in AllScores(h) && r.Key() == key
  {
    StoredRowsAreFirst(h);
    forall key ensures key in Run(h).observations <==> exists r :: r in AllRows(h) && r.Key() == key {
      assert FirstOf(AllRows(h), key, Lookup(Run(h).observations, key));
    }
    forall key ensures key in Run(h).scores <==> exists r :: r in AllScores(h) && r.Key() == key {
      assert FirstScoreOf(AllScores(h), key, Lookup(Run(h).scores, key));
    }
  }

  lemma PlacedKeys(g: seq<Request>, h: seq<Request>)
    requires PlacedIn(AllRows(g), AllRows(h))
    ensures Run(g).observations.Keys <= Run(h).observations.Keys
  {
    StoredKeys(g);
    StoredKeys(h);
    forall key | key in Run(g).observations ensures key in Run(h).observations {
      var r :| r in AllRows(g) && r.Key() == key;
      var s := PlacedRow(AllRows(g), AllRows(h), r);
    }
  }

  lemma SentScoreKeys(g: seq<Request>)
    ensures Run(g).scores.Keys == ScoreKeys(AllScores(g))
  {
    StoredKeys(g);
  }

  lemma SameSpans(g: seq<Request>, h: seq<Request>)
    requires Run(g).traces.Keys == Run(h).traces.Keys
    requires PlacedIn(AllRows(g), AllRows(h)) && PlacedIn(AllRows(h), AllRows(g))
    ensures SameWindows(Run(g), Run(h))
  {
    forall k | k in Run(g).traces
      ensures Run(g).traces[k].obsMin == Run(h).traces[k].obsMin && Run(g).traces[k].obsMax == Run(h).traces[k].obsMax
    {
      WindowReads(g, k);
      WindowReads(h, k);
      SpanOfSamePlaces(AllRows(g), AllRows(h), k);
    }
  }

  lemma SameKeys<K, V>(m: map<K, V>, n: map<K, V>)
    requires forall k :: k in m <==> k in n
    ensures m.Keys == n.Keys
  {
  }

  /** Two runs that deliver batches of the same outlines, in any order, any number of times, at any prices and with
      whatever names, tags and metadata, agree on trace ids, windows, and which observations and scores are stored. */
  lemma OrderIndependent(g: seq<Request>, h: seq<Request>)
    requires Payloads(g) == Payloads(h) && AllPunctual(g) && AllPunctual(h)
    ensures SameWindows(Run(g), Run(h))
    ensures Run(g).observations.Keys == Run(h).observations.Keys
    ensures Run(g).scores.Keys == Run(h).scores.Keys
  {
    Redelivered(g, h);
    Redelivered(h, g);
    PlacedKeys(g, h);
    PlacedKeys(h, g);
    SentScoreKeys(g);
    SentScoreKeys(h);
    SameKeys(Run(g).traces, Run(h).traces);
    SameSpans(g, h);
  }

  lemma ConsistentRowsAgree(a: seq<ObsRow>, b: seq<ObsRow>)
    requires PlacedIn(a, b) && RowConsistent(a + b)
    ensures forall r :: r in a ==> r in b
  {
    forall r | r in a ensures r in b {
      var s := PlacedRow(a, b, r);
      assert r in a + b && s in a + b;
    }
  }

  lemma ConsistentBothWays(a: seq<ObsRow>, b: seq<ObsRow>)
    requires PlacedIn(a, b) && PlacedIn(b, a) && RowConsistent(a + b)
    ensures RowConsistent(a) && forall r :: r in a <==> r in b
  {
    assert forall r :: r in a || r in b <==> r in a + b;
    assert forall r :: r in b + a <==> r in a + b;
    ConsistentRowsAgree(a, b);
    ConsistentRowsAgree(b, a);
  }

  /** When over both runs a key always names the same row, price included, they store the same observations. */
  lemma SameObservationsStored(g: seq<Request>, h: seq<Request>)
    requires Payloads(g) == Payloads(h) && AllPunctual(g) && AllPunctual(h)
    requires RowConsistent(AllRows(g) + AllRows(h))
    ensures Run(g).observations == Run(h).observations
  {
    Redelivered(g, h);
    Redelivered(h, g);
    ConsistentBothWays(AllRows(g), AllRows(h));
    StoredRowsAreFirst(g);
    StoredRowsAreFirst(h);
    forall key ensures Lookup(Run(g).observations, key) == Lookup(Run(h).observations, key) {
      FirstOfSameRows(AllRows(g), AllRows(h), ObsKeyOf, key,
                      Lookup(Run(g).observations, key), Lookup(Run(h).observations, key));
    }
    SameEverywhere(Run(g).observations, Run(h).observations);
  }

  lemma ConsistentScoresAgree(a: seq<ScoreRow>, b: seq<ScoreRow>)
    requires ScoreKeys(a) <= ScoreKeys(b) && ScoreConsistent(a + b)
    ensures forall r :: r in a ==> r in b
  {
    forall r | r in a ensures r in b {
      assert r.Key() in ScoreKeys(b);
      var s :| s in b && s.Key() == r.Key();
      assert r in a + b && s in a + b;
    }
  }

  lemma ScoresBothWays(a: seq<ScoreRow>, b: seq<ScoreRow>)
    requires ScoreKeys(a) == ScoreKeys(b) && ScoreConsistent(a + b)
    ensures ScoreConsistent(a) && forall r :: r in a <==> r in b
  {
    assert forall r :: r in a || r in b <==> r in a + b;
    assert forall r :: r in b + a <==> r in a + b;
    ConsistentScoresAgree(a, b);
    ConsistentScoresAgree(b, a);
  }

  /** When over both runs a score key always names the same score, its time included, they store the same scores. */
  lemma SameScoresStored(g: seq<Request>, h: seq<Request>)
    requires Payloads(g) == Payloads(h) && AllPunctual(g) && AllPunctual(h)
    requires ScoreConsistent(AllScores(g) + AllScores(h))
    ensures Run(g).scores == Run(h).scores
  {
    Redelivered(g, h);
    Redelivered(h, g);
    ScoresBothWays(AllScores(g), AllScores(h));
    StoredRowsAreFirst(g);
    StoredRowsAreFirst(h);
    forall key ensures Lookup(Run(g).scores, key) == Lookup(Run(h).scores, key) {
      FirstOfSameRows(AllScores(g), AllScores(h), ScoreKeyOf, key,
                      Lookup(Run(g).scores, key), Lookup(Run(h).scores, key));
    }
    SameEverywhere(Run(g).scores, Run(h).scores);
  }

  /** Scores that carry their own time need be consistent within one run only. */
  lemma StampedScoresStored(g: seq<Request>, h: seq<Request>)
    requires Payloads(g) == Payloads(h) && AllPunctual(g) && AllPunctual(h)
    requires AllStamped(g) && ScoreConsistent(AllScores(g))
    ensures Run(g).scores == Run(h).scores
  {
    StampedAlike(g, h);
    RedeliveredScores(g, h);
    RedeliveredScores(h, g);
    assert forall r :: r in AllScores(g) + AllScores(h) <==> r in AllScores(g);
    SameScoresStored(g, h);
  }

  lemma StampedAlike(g: seq<Request>, h: seq<Request>)
    requires Payloads(h) <= Payloads(g) && AllStamped(g)
    ensures AllStamped(h)
  {
    forall i | 0 <= i < |h| ensures Stamped(h[i].batch.scores) {
      assert Payload(h[i]) in Payloads(g);
      var j :| 0 <= j < |g| && Payload(g[j]) == Payload(h[i]);
    }
  }

  /** A batch of one trace, which it names. */
  function Naming(name: string): Request {
    var about := About(Some(name), None, None, [], None, None, map[]);
    Request(1, Batch([Trace(2, about, Some(0), None, [])], [], [], None), None, 0, [])
  }

  /** What a batch of one trace without observations leaves in that trace's row. */
  lemma SoleTrace(t: Tables, req: Request, trace: Trace)
    requires req.batch.traces == [trace] && req.batch.observations == []
    requires trace.observations == [] && trace.startedAt.Some?
    ensures var k, sdk := RowKey(req.project, trace.id), EffectiveSdk(req.sdkHeader, req.batch.sdkVersion);
            Lookup(Step(t, req).traces, k)
            == Some(MergeTrace(Lookup(t.traces, k), MakeSend(trace, req.project, sdk, None), req.now))
  {
    var k := RowKey(req.project, trace.id);
    assert NestedPairs(req.batch.traces) == [] by {
      assert req.batch.traces[..0] == [] && PairsOf(req.batch.traces[0]) == [];
    }
    assert Pairs(req.batch) == [];
    assert NestedCount(req.batch.traces[..0]) == 0 && Admissible(req.batch);
    SendsOk(req);
    StepAt(t, req, k);
    var sends := Sends(req);
    assert sends[..0] == [];
    assert SendTouches(sends, k, req.now) == [Sent(sends[0], req.now)];
    assert StubTouches(req, k) == [];
    var h := TouchesBy(req, k);
    assert h == [Sent(sends[0], req.now)] && h[..0] == [];
  }

  /** The descriptive columns are last-writer: the same two batches in the other order end otherwise. */
  lemma OrderMattersForNames()
    ensures Run([Naming("a"), Naming("b")]) != Run([Naming("b"), Naming("a")])
  {
    var ab, ba := [Naming("a"), Naming("b")], [Naming("b"), Naming("a")];
    assert ab[..1] == [Naming("a")] && ba[..1] == [Naming("b")];
    SoleTrace(Run(ab[..1]), Naming("b"), Naming("b").batch.traces[0]);
    SoleTrace(Run(ba[..1]), Naming("a"), Naming("a").batch.traces[0]);
  }
}
