/** Which observations and scores are stored and what their rows hold, read off the batches; and what a reply counts. */
module Inserts {
  import opened Types
  import opened Batches
  import opened Writes
  import opened History
  import opened Costs
  import opened Presence
  import Router

  // ---------------------------------------------------------------- the observations and scores that are stored

  /** An accepted observation of this id and start: with the project, the key of its row. */
  predicate Keyed(pair: Pair, req: Request, key: ObsKey) {
    req.project == key.project && pair.0.id == key.id && Acceptable(pair, key.startedAt, req.now)
  }

  /** The p-th observation of an admitted batch is one for this key. */
  predicate Puts(req: Request, p: nat, key: ObsKey) {
    Admissible(req.batch) && p < |Pairs(req.batch)| && Keyed(Pairs(req.batch)[p], req, key)
  }

  /** The row holds the observation's own columns, its trace, and its cost by the book in force. */
  ghost predicate Holds(r: ObsRow, pair: Pair, req: Request, key: ObsKey) {
    var o, d := pair.0, pair.0.detail;
    && r.Key() == key && BelongsTo(pair, r.traceId)
    && r.endedAt == o.endedAt && r.latencyMs == o.latencyMs && r.detail == d
    && r.cost == Cost(req.book, d.model, d.promptTokens, d.completionTokens, d.cachedTokens)
  }

  ghost predicate FirstPut(h: seq<Request>, i: nat, p: nat, key: ObsKey) {
    i < |h| && Puts(h[i], p, key)
    && forall a, b: nat :: 0 <= a < |h| && Puts(h[a], b, key) ==> i < a || (i == a && p <= b)
  }

  lemma {:induction false} FirstOfBatch(m: map<ObsKey, ObsRow>, pairs: seq<Pair>, req: Request, key: ObsKey)
    returns (p: nat)
    ensures var r := Lookup(InsertObservations(m, AcceptedRows(pairs, req.project, req.now, req.book)), key);
            if key in m then r == Some(m[key])
            else if r.None? then forall q :: 0 <= q < |pairs| ==> !Keyed(pairs[q], req, key)
            else p < |pairs| && Keyed(pairs[p], req, key) && Holds(r.value, pairs[p], req, key)
                 && forall q :: 0 <= q < p ==> !Keyed(pairs[q], req, key)
    decreases |pairs|
  {
    p := 0;
    if pairs != [] {
      var init, last := pairs[..|pairs| - 1], pairs[|pairs| - 1];
      p := FirstOfBatch(m, init, req, key);
      var before := AcceptedRows(init, req.project, req.now, req.book);
      assert forall q :: 0 <= q < |init| ==> pairs[q] == init[q];
      if Accepts(last, req.now) {
        var r := MakeRow(last, req.project, req.book);
        assert (before + [r])[..|before|] == before;
        assert r.Key() == key <==> Keyed(last, req, key);
      }
      if key !in InsertObservations(m, before) {
        p := |init|;
      }
    }
  }

  /** An observation is stored as soon as an admitted batch carries an acceptable one under its key, and keeps the
      columns of the first such one. */
  lemma {:induction false} ObservationsAreFirstSent(h: seq<Request>, key: ObsKey) returns (i: nat, p: nat)
    ensures key in Run(h).observations <==> exists a, b: nat :: 0 <= a < |h| && Puts(h[a], b, key)
    ensures key in Run(h).observations ==>
              FirstPut(h, i, p, key) && Holds(Run(h).observations[key], Pairs(h[i].batch)[p], h[i], key)
    decreases |h|
  {
    i, p := 0, 0;
    if h != [] {
      var init, last := h[..|h| - 1], h[|h| - 1];
      i, p := ObservationsAreFirstSent(init, key);
      assert forall a :: 0 <= a < |h| ==> h[a] == (if a < |init| then init[a] else last);
      var q := FirstOfBatch(Run(init).observations, Pairs(last.batch), last, key);
      if key !in Run(init).observations && key in Run(h).observations {
        i, p := |init|, q;
        assert Puts(h[i], p, key);
      }
    }
  }

  // ---------------------------------------------------------------- scores

  predicate Targeted(score: Score) {
    score.traceId != None || score.observationId != None
  }

  predicate Filed(score: Score, project: Id, key: RowKey) {
    project == key.project && score.id == key.id && Targeted(score)
  }

  /** The s-th score of an admitted batch has this id and says what it scores. */
  predicate Files(req: Request, s: nat, key: RowKey) {
    Admissible(req.batch) && s < |req.batch.scores| && Filed(req.batch.scores[s], req.project, key)
  }

  /** The row names the score's own targets, carries its value in the columns of its kind, and the moment it was made
      or else received. */
  predicate Records(r: ScoreRow, score: Score, req: Request) {
    && r.id == score.id && r.project == req.project && r.name == score.name && r.body == score.body
    && r.traceId == score.traceId && r.observationId == score.observationId
    && (if score.scoredAt.Some? then Some(r.scoredAt) == score.scoredAt else r.scoredAt == req.now)
    && match score.value
       case Flag(on) => r.kind == Boolean && r.valueText == None && r.value == Some(if on then 1.0 else 0.0)
       case Number(n) => r.kind == Numeric && r.valueText == None && r.value == Some(n)
       case Label(text) => r.kind == Categorical && r.value == None && r.valueText == Some(text)
  }

  ghost predicate FirstFiled(h: seq<Request>, i: nat, s: nat, key: RowKey) {
    i < |h| && Files(h[i], s, key)
    && forall a, b: nat :: 0 <= a < |h| && Files(h[a], b, key) ==> i < a || (i == a && s <= b)
  }

  lemma MadeAsSent(score: Score, req: Request, key: RowKey)
    ensures score.HasTarget() ==> (MakeScore(score, req.project, req.now).Key() == key <==> Filed(score, req.project, key))
    ensures !score.HasTarget() ==> !Filed(score, req.project, key)
  {
  }

  lemma Recorded(score: Score, req: Request)
    ensures Records(MakeScore(score, req.project, req.now), score, req)
  {
  }

  lemma {:induction false} InsertKeeps(m: map<RowKey, ScoreRow>, rows: seq<ScoreRow>, key: RowKey)
    requires key in m
    ensures Lookup(InsertScores(m, rows), key) == Some(m[key])
    decreases |rows|
  {
    if rows != [] {
      InsertKeeps(m, rows[..|rows| - 1], key);
    }
  }

  ghost function ScoreAt(m: map<RowKey, ScoreRow>, scores: seq<Score>, req: Request, key: RowKey): Option<ScoreRow> {
    Lookup(InsertScores(m, ScoreRows(scores, req.project, req.now)), key)
  }

  lemma ScoreAtStep(m: map<RowKey, ScoreRow>, scores: seq<Score>, req: Request, key: RowKey)
    requires scores != []
    ensures var last, before := scores[|scores| - 1], ScoreAt(m, scores[..|scores| - 1], req, key);
            ScoreAt(m, scores, req, key)
            == if before.None? && Filed(last, req.project, key) then Some(MakeScore(last, req.project, req.now)) else before
  {
    var last, before := scores[|scores| - 1], ScoreRows(scores[..|scores| - 1], req.project, req.now);
    MadeAsSent(last, req, key);
    assert (before + [MakeScore(last, req.project, req.now)])[..|before|] == before;
  }

  lemma {:induction false} FirstScoreOfBatch(m: map<RowKey, ScoreRow>, scores: seq<Score>, req: Request, key: RowKey)
    returns (s: nat)
    requires key !in m
    ensures var r := ScoreAt(m, scores, req, key);
            if r.None? then forall q :: 0 <= q < |scores| ==> !Filed(scores[q], req.project, key)
            else s < |scores| && Filed(scores[s], req.project, key) && r.value == MakeScore(scores[s], req.project, req.now)
                 && forall q :: 0 <= q < s ==> !Filed(scores[q], req.project, key)
    decreases |scores|
  {
    s := 0;
    if scores != [] {
      var init := scores[..|scores| - 1];
      s := FirstScoreOfBatch(m, init, req, key);
      ScoreAtStep(m, scores, req, key);
      assert forall q :: 0 <= q < |init| ==> scores[q] == init[q];
      if ScoreAt(m, init, req, key).None? {
        s := |init|;
      }
    }
  }

  /** A score is stored as soon as an admitted batch carries one of its id that names a target, and keeps what the
      first such one said. */
  lemma {:induction false} ScoresAreFirstSent(h: seq<Request>, key: RowKey) returns (i: nat, s: nat)
    ensures key in Run(h).scores <==> exists a, b: nat :: 0 <= a < |h| && Files(h[a], b, key)
    ensures key in Run(h).scores ==>
              FirstFiled(h, i, s, key) && Records(Run(h).scores[key], h[i].batch.scores[s], h[i])
    decreases |h|
  {
    i, s := 0, 0;
    if h != [] {
      var init, last := h[..|h| - 1], h[|h| - 1];
      i, s := ScoresAreFirstSent(init, key);
      assert forall a :: 0 <= a < |h| ==> h[a] == (if a < |init| then init[a] else last);
      if key in Run(init).scores {
        InsertKeeps(Run(init).scores, ScoreRows(last.batch.scores, last.project, last.now), key);
      } else {
        var q := FirstScoreOfBatch(Run(init).scores, last.batch.scores, last, key);
        if key in Run(h).scores {
          i, s := |init|, q;
          Recorded(last.batch.scores[q], last);
          assert Files(h[i], s, key);
        }
      }
    }
  }

  // ---------------------------------------------------------------- what the reply counts

  predicate Takes(pair: Pair, now: Time) {
    exists t: Time :: Acceptable(pair, t, now)
  }

  predicate Refuses(pair: Pair, now: Time) {
    exists t: Time :: StartsAt(pair, t) && !Acceptable(pair, t, now)
  }

  /** The places of a batch's observations that are taken, and of those refused. */
  function Taken(pairs: seq<Pair>, now: Time): set<int> {
    set p | 0 <= p < |pairs| && Takes(pairs[p], now)
  }

  function Refused(pairs: seq<Pair>, now: Time): set<int> {
    set p | 0 <= p < |pairs| && Refuses(pairs[p], now)
  }

  function Aimed(scores: seq<Score>): set<int> {
    set s | 0 <= s < |scores| && Targeted(scores[s])
  }

  function Aimless(scores: seq<Score>): set<int> {
    set s | 0 <= s < |scores| && !Targeted(scores[s])
  }

  /** An admitted request is answered with how many of its observations start within the window, how many outside it,
      and how many of its scores name a target. */
  lemma ReplyCounts(req: Request)
    requires Admissible(req.batch)
    ensures var (pairs, scores) := (Pairs(req.batch), req.batch.scores);
            Router.Reply(req) == Router.Accepted(|req.batch.traces|, |Taken(pairs, req.now)|, |Aimed(scores)|,
                                                 |Refused(pairs, req.now)|, |Aimless(scores)|)
  {
    RowCounts(Pairs(req.batch), req);
    ScoreCounts(req.batch.scores, req);
  }

  lemma TakenStep(pairs: seq<Pair>, now: Time)
    requires pairs != []
    ensures var n := |pairs| - 1;
            |Taken(pairs, now)| == |Taken(pairs[..n], now)| + (if Takes(pairs[n], now) then 1 else 0)
  {
    var n := |pairs| - 1;
    assert Taken(pairs, now) == Taken(pairs[..n], now) + (if Takes(pairs[n], now) then {n} else {});
  }

  lemma RefusedStep(pairs: seq<Pair>, now: Time)
    requires pairs != []
    ensures var n := |pairs| - 1;
            |Refused(pairs, now)| == |Refused(pairs[..n], now)| + (if Refuses(pairs[n], now) then 1 else 0)
  {
    var n := |pairs| - 1;
    assert Refused(pairs, now) == Refused(pairs[..n], now) + (if Refuses(pairs[n], now) then {n} else {});
  }

  lemma {:induction false} RowCounts(pairs: seq<Pair>, req: Request)
    ensures |AcceptedRows(pairs, req.project, req.now, req.book)| == |Taken(pairs, req.now)|
    ensures RejectedCount(pairs, req.now) == |Refused(pairs, req.now)|
    decreases |pairs|
  {
    if pairs != [] {
      var n := |pairs| - 1;
      RowCounts(pairs[..n], req);
      TakesOrRefuses(pairs[n], req.now);
      TakenStep(pairs, req.now);
      RefusedStep(pairs, req.now);
    }
  }

  lemma TakesOrRefuses(pair: Pair, now: Time)
    ensures Takes(pair, now) <==> Accepts(pair, now)
    ensures Refuses(pair, now) <==> StartOf(pair).Some? && !Accepts(pair, now)
  {
    if StartOf(pair).Some? {
      assert StartsAt(pair, StartOf(pair).value);
      assert Acceptable(pair, StartOf(pair).value, now) <==> Accepts(pair, now);
    }
  }

  lemma AimsStep(scores: seq<Score>)
    requires scores != []
    ensures var n := |scores| - 1;
            && |Aimed(scores)| == |Aimed(scores[..n])| + (if Targeted(scores[n]) then 1 else 0)
            && |Aimless(scores)| == |Aimless(scores[..n])| + (if Targeted(scores[n]) then 0 else 1)
  {
    var n := |scores| - 1;
    assert Aimed(scores) == Aimed(scores[..n]) + (if Targeted(scores[n]) then {n} else {});
    assert Aimless(scores) == Aimless(scores[..n]) + (if Targeted(scores[n]) then {} else {n});
  }

  lemma {:induction false} ScoreCounts(scores: seq<Score>, req: Request)
    ensures |ScoreRows(scores, req.project, req.now)| == |Aimed(scores)|
    ensures |scores| - |ScoreRows(scores, req.project, req.now)| == |Aimless(scores)|
    decreases |scores|
  {
    if scores != [] {
      ScoreCounts(scores[..|scores| - 1], req);
      AimsStep(scores);
    }
  }

  /** A request is turned away for its size alone: over a thousand traces or over five thousand observations, nested
      and flat together. */
  lemma TooLargeIff(req: Request)
    ensures Router.Reply(req) == Router.TooLargeResponse
            <==> |req.batch.traces| > 1000 || |Pairs(req.batch)| > 5000
  {
    CountsThePairs(req.batch.traces);
  }
}
