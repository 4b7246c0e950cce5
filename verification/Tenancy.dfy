/** Row-level security: one project's slice of the store, whatever the others send. */
module Tenancy {
  import opened Types
  import opened Batches
  import opened Writes
  import opened History
  import opened Windows

  /** The rows the tenant policy leaves visible to a session bound to project p. */
  ghost function Slice(t: Tables, p: Id): Tables {
    Tables(map k | k in t.traces && k.project == p :: t.traces[k],
           map k | k in t.observations && k.project == p :: t.observations[k],
           map k | k in t.scores && k.project == p :: t.scores[k])
  }

  function Mine(history: seq<Request>, p: Id): seq<Request> {
    if history == [] then []
    else
      var before := Mine(history[..|history| - 1], p);
      var req := history[|history| - 1];
      if req.project == p then before + [req] else before
  }

  lemma {:induction false} InsertAt(m: map<ObsKey, ObsRow>, rows: seq<ObsRow>, key: ObsKey)
    ensures Lookup(InsertObservations(m, rows), key)
         == Coalesce(Lookup(m, key), Lookup(InsertObservations(map[], rows), key))
    decreases |rows|
  {
    if rows != [] {
      InsertAt(m, rows[..|rows| - 1], key);
    }
  }

  lemma {:induction false} InsertScoreAt(m: map<RowKey, ScoreRow>, rows: seq<ScoreRow>, key: RowKey)
    ensures Lookup(InsertScores(m, rows), key) == Coalesce(Lookup(m, key), Lookup(InsertScores(map[], rows), key))
    decreases |rows|
  {
    if rows != [] {
      InsertScoreAt(m, rows[..|rows| - 1], key);
    }
  }

  lemma {:induction false} ScoresOfOneProject(scores: seq<Score>, project: Id, received: Time)
    ensures forall i :: 0 <= i < |ScoreRows(scores, project, received)|
              ==> ScoreRows(scores, project, received)[i].project == project
    decreases |scores|
  {
    if scores != [] {
      ScoresOfOneProject(scores[..|scores| - 1], project, received);
    }
  }

  /** A request writes under its own project id and nowhere else. */
  lemma ForeignRequest(t: Tables, req: Request, p: Id)
    requires req.project != p
    ensures Slice(Step(t, req), p) == Slice(t, p)
  {
    var u := Step(t, req);
    forall k: RowKey | k.project == p ensures Lookup(u.traces, k) == Lookup(t.traces, k) {
      StepAt(t, req, k);
      TouchWindows(req, k);
    }
    forall key: ObsKey | key.project == p ensures Lookup(u.observations, key) == Lookup(t.observations, key) {
      ForeignObservation(t, req, key);
    }
    forall key: RowKey | key.project == p ensures Lookup(u.scores, key) == Lookup(t.scores, key) {
      ForeignScore(t, req, key);
    }
    SlicesAgree(u, t, p);
  }

  lemma ForeignObservation(t: Tables, req: Request, key: ObsKey)
    requires req.project != key.project
    ensures Lookup(Step(t, req).observations, key) == Lookup(t.observations, key)
  {
    InsertAt(t.observations, ProposedRows(req), key);
    InsertKeepsFirst(ProposedRows(req), key);
    ProposedProject(req);
  }

  lemma ForeignScore(t: Tables, req: Request, key: RowKey)
    requires req.project != key.project
    ensures Lookup(Step(t, req).scores, key) == Lookup(t.scores, key)
  {
    var rows := ScoreRows(req.batch.scores, req.project, req.now);
    InsertScoreAt(t.scores, rows, key);
    InsertKeepsFirstScore(rows, key);
    ScoresOfOneProject(req.batch.scores, req.project, req.now);
  }

  lemma SlicesAgree(t: Tables, u: Tables, p: Id)
    requires forall k: RowKey :: k.project == p ==> Lookup(t.traces, k) == Lookup(u.traces, k)
    requires forall k: ObsKey :: k.project == p ==> Lookup(t.observations, k) == Lookup(u.observations, k)
    requires forall k: RowKey :: k.project == p ==> Lookup(t.scores, k) == Lookup(u.scores, k)
    ensures Slice(t, p) == Slice(u, p)
  {
    var a, b := Slice(t, p), Slice(u, p);
    forall k ensures Lookup(a.traces, k) == Lookup(b.traces, k) {
      assert k.project == p ==> Lookup(t.traces, k) == Lookup(u.traces, k);
    }
    forall k ensures Lookup(a.observations, k) == Lookup(b.observations, k) {
      assert k.project == p ==> Lookup(t.observations, k) == Lookup(u.observations, k);
    }
    forall k ensures Lookup(a.scores, k) == Lookup(b.scores, k) {
      assert k.project == p ==> Lookup(t.scores, k) == Lookup(u.scores, k);
    }
    SameEverywhere(a.traces, b.traces);
    SameEverywhere(a.observations, b.observations);
    SameEverywhere(a.scores, b.scores);
  }

  lemma SliceKeeps(t: Tables, u: Tables, p: Id)
    requires Slice(t, p) == Slice(u, p)
    ensures forall k: RowKey :: k.project == p ==> Lookup(t.traces, k) == Lookup(u.traces, k)
    ensures forall k: ObsKey :: k.project == p ==> Lookup(t.observations, k) == Lookup(u.observations, k)
    ensures forall k: RowKey :: k.project == p ==> Lookup(t.scores, k) == Lookup(u.scores, k)
  {
    assert forall k: RowKey :: k.project == p ==> Lookup(t.traces, k) == Lookup(Slice(t, p).traces, k);
    assert forall k: RowKey :: k.project == p ==> Lookup(u.traces, k) == Lookup(Slice(u, p).traces, k);
    assert forall k: ObsKey :: k.project == p ==> Lookup(t.observations, k) == Lookup(Slice(t, p).observations, k);
    assert forall k: ObsKey :: k.project == p ==> Lookup(u.observations, k) == Lookup(Slice(u, p).observations, k);
    assert forall k: RowKey :: k.project == p ==> Lookup(t.scores, k) == Lookup(Slice(t, p).scores, k);
    assert forall k: RowKey :: k.project == p ==> Lookup(u.scores, k) == Lookup(Slice(u, p).scores, k);
  }

  lemma SameObservationAfter(t: Tables, u: Tables, req: Request, key: ObsKey)
    requires Lookup(t.observations, key) == Lookup(u.observations, key)
    ensures Lookup(Step(t, req).observations, key) == Lookup(Step(u, req).observations, key)
  {
    InsertAt(t.observations, ProposedRows(req), key);
    InsertAt(u.observations, ProposedRows(req), key);
  }

  lemma SameScoreAfter(t: Tables, u: Tables, req: Request, key: RowKey)
    requires Lookup(t.scores, key) == Lookup(u.scores, key)
    ensures Lookup(Step(t, req).scores, key) == Lookup(Step(u, req).scores, key)
  {
    InsertScoreAt(t.scores, ScoreRows(req.batch.scores, req.project, req.now), key);
    InsertScoreAt(u.scores, ScoreRows(req.batch.scores, req.project, req.now), key);
  }

  /** A request leaves, in its own slice, what it would leave if that slice were the whole store. */
  lemma OwnRequest(t: Tables, u: Tables, req: Request)
    requires Slice(t, req.project) == Slice(u, req.project)
    ensures Slice(Step(t, req), req.project) == Slice(Step(u, req), req.project)
  {
    var p, a, b := req.project, Step(t, req), Step(u, req);
    SliceKeeps(t, u, p);
    forall k: RowKey | k.project == p ensures Lookup(a.traces, k) == Lookup(b.traces, k) {
      StepAt(t, req, k);
      StepAt(u, req, k);
    }
    forall key: ObsKey | key.project == p ensures Lookup(a.observations, key) == Lookup(b.observations, key) {
      SameObservationAfter(t, u, req, key);
    }
    forall key: RowKey | key.project == p ensures Lookup(a.scores, key) == Lookup(b.scores, key) {
      SameScoreAfter(t, u, req, key);
    }
    SlicesAgree(a, b, p);
  }

  /** For any interleaving of requests from any projects, what one project has stored is what its own
      requests alone would have stored. */
  lemma {:induction false} TenantsAreIsolated(history: seq<Request>, p: Id)
    ensures Slice(Run(history), p) == Slice(Run(Mine(history, p)), p)
    decreases |history|
  {
    if history != [] {
      var init, req := history[..|history| - 1], history[|history| - 1];
      TenantsAreIsolated(init, p);
      if req.project == p {
        var mine := Mine(init, p);
        assert (mine + [req])[..|mine|] == mine;
        OwnRequest(Run(init), Run(mine), req);
      } else {
        ForeignRequest(Run(init), req, p);
      }
    }
  }
}
