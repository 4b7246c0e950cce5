/** The stored observation windows: what they cover, when they are exact, and the 0005 recomputation. */
module Windows {
  import opened Types
  import opened Batches
  import opened Writes
  import opened History
  import Router

  function Lo(w: Option<Window>): Option<Time> {
    if w.None? then None else Some(w.value.lo)
  }

  function Hi(w: Option<Window>): Option<Time> {
    if w.None? then None else Some(w.value.hi)
  }

  /** w is the smallest interval around the rows of k, None when there are none. */
  ghost predicate IsSpan(rows: seq<ObsRow>, k: RowKey, w: Option<Window>) {
    match w
    case None => forall i :: 0 <= i < |rows| ==> TraceKey(rows[i]) != k
    case Some(v) =>
      && (exists i :: 0 <= i < |rows| && TraceKey(rows[i]) == k && rows[i].startedAt == v.lo)
      && (exists i :: 0 <= i < |rows| && TraceKey(rows[i]) == k && rows[i].startedAt == v.hi)
      && (forall i :: 0 <= i < |rows| && TraceKey(rows[i]) == k ==> v.lo <= rows[i].startedAt <= v.hi)
  }

  lemma {:induction false} SpanIsMinMax(rows: seq<ObsRow>, k: RowKey)
    ensures IsSpan(rows, k, Span(rows, k))
    decreases |rows|
  {
    if rows != [] {
      var init, r := rows[..|rows| - 1], rows[|rows| - 1];
      SpanIsMinMax(init, k);
      var w := Span(init, k);
      if w.Some? {
        var i :| 0 <= i < |init| && TraceKey(init[i]) == k && init[i].startedAt == w.value.lo;
        var j :| 0 <= j < |init| && TraceKey(init[j]) == k && init[j].startedAt == w.value.hi;
        assert rows[i] == init[i] && rows[j] == init[j];
      }
      assert forall i :: 0 <= i < |rows| ==> rows[i] == (if i < |init| then init[i] else r);
    }
  }

  lemma {:induction false} SpanInParts(a: seq<ObsRow>, b: seq<ObsRow>, k: RowKey)
    ensures Lo(Span(a + b, k)) == Least(Lo(Span(a, k)), Lo(Span(b, k)))
    ensures Hi(Span(a + b, k)) == Greatest(Hi(Span(a, k)), Hi(Span(b, k)))
    decreases |b|
  {
    if b == [] {
      assert a + b == a;
    } else {
      assert (a + b)[..|a + b| - 1] == a + b[..|b| - 1];
      SpanInParts(a, b[..|b| - 1], k);
    }
  }

  // ---------------------------------------------------------------- the windows one request writes

  lemma {:induction false} RowsOfOneProject(pairs: seq<Pair>, req: Request)
    ensures forall i :: 0 <= i < |AcceptedRows(pairs, req.project, req.now, req.book)|
              ==> AcceptedRows(pairs, req.project, req.now, req.book)[i].project == req.project
    decreases |pairs|
  {
    if pairs != [] {
      RowsOfOneProject(pairs[..|pairs| - 1], req);
    }
  }

  lemma ProposedProject(req: Request)
    ensures forall i :: 0 <= i < |ProposedRows(req)| ==> ProposedRows(req)[i].project == req.project
  {
    RowsOfOneProject(Pairs(req.batch), req);
  }

  function TouchWindow(t: Touch): Option<Window> {
    match t
    case Sent(s, at) => s.window
    case Stubbed(w, at) => Some(w)
  }

  lemma {:induction false} SendTouchesOf(traces: seq<Trace>, rows: seq<ObsRow>, project: Id, sdk: Option<string>,
                                         k: RowKey, now: Time)
    requires AllStarted(SendsOf(traces, rows, project, sdk))
    ensures var h := SendTouches(SendsOf(traces, rows, project, sdk), k, now);
            && (forall i :: 0 <= i < |h| ==> TouchWindow(h[i]) == Span(rows, k))
            && (h != [] <==> k.project == project && exists i :: 0 <= i < |traces| && traces[i].id == k.id)
    decreases |traces|
  {
    var sends := SendsOf(traces, rows, project, sdk);
    if traces != [] {
      var init, s := traces[..|traces| - 1], sends[|sends| - 1];
      assert SendsOf(init, rows, project, sdk) == sends[..|sends| - 1];
      SendTouchesOf(init, rows, project, sdk, k, now);
      assert forall i :: 0 <= i < |traces| ==> traces[i] == (if i < |init| then init[i] else traces[|init|]);
    }
  }

  /** A request proposes one window for k, its rows' span, and proposes it whenever it has rows for k. */
  lemma TouchWindows(req: Request, k: RowKey)
    ensures forall i :: 0 <= i < |TouchesBy(req, k)| ==> TouchWindow(TouchesBy(req, k)[i]) == Span(RowsBy(req), k)
    ensures Span(RowsBy(req), k).Some? ==> TouchesBy(req, k) != []
    ensures TouchesBy(req, k) != []
            <==> Admissible(req.batch) && k.project == req.project
                 && (k.id in ExplicitIds(req.batch) || k.id in TraceIds(ProposedRows(req)))
  {
    if Admissible(req.batch) {
      SendsOk(req);
      var rows := ProposedRows(req);
      ProposedProject(req);
      SpanIsMinMax(rows, k);
      if k.project == req.project {
        Router.SpanIffNamed(rows, req.project, k.id);
        assert k == RowKey(req.project, k.id);
      }
      SendTouchesOf(req.batch.traces, rows, req.project, EffectiveSdk(req.sdkHeader, req.batch.sdkVersion), k, req.now);
    }
  }

  function MinOf(row: Option<TraceRow>): Option<Time> {
    if row.None? then None else row.value.obsMin
  }

  function MaxOf(row: Option<TraceRow>): Option<Time> {
    if row.None? then None else row.value.obsMax
  }

  lemma {:induction false} FoldBounds(row: Option<TraceRow>, h: seq<Touch>, w: Option<Window>)
    requires forall i :: 0 <= i < |h| ==> TouchWindow(h[i]) == w
    ensures h != [] ==> MinOf(Fold(row, h)) == Least(MinOf(row), Lo(w))
    ensures h != [] ==> MaxOf(Fold(row, h)) == Greatest(MaxOf(row), Hi(w))
    decreases |h|
  {
    if h != [] {
      FoldBounds(row, h[..|h| - 1], w);
    }
  }

  lemma StepBounds(t: Tables, req: Request, k: RowKey)
    ensures MinOf(Lookup(Step(t, req).traces, k)) == Least(MinOf(Lookup(t.traces, k)), Lo(Span(RowsBy(req), k)))
    ensures MaxOf(Lookup(Step(t, req).traces, k)) == Greatest(MaxOf(Lookup(t.traces, k)), Hi(Span(RowsBy(req), k)))
  {
    StepAt(t, req, k);
    TouchWindows(req, k);
    FoldBounds(Lookup(t.traces, k), TouchesBy(req, k), Span(RowsBy(req), k));
  }

  lemma {:induction false} WindowFrom(t: Tables, history: seq<Request>, k: RowKey)
    ensures MinOf(Lookup(RunFrom(t, history).traces, k))
         == Least(MinOf(Lookup(t.traces, k)), Lo(Span(AllRows(history), k)))
    ensures MaxOf(Lookup(RunFrom(t, history).traces, k))
         == Greatest(MaxOf(Lookup(t.traces, k)), Hi(Span(AllRows(history), k)))
    decreases |history|
  {
    if history != [] {
      var init, last := history[..|history| - 1], history[|history| - 1];
      WindowFrom(t, init, k);
      StepBounds(RunFrom(t, init), last, k);
      SpanInParts(AllRows(init), RowsBy(last), k);
    }
  }

  /** The stored window is the span of every row accepted for the trace over the whole history. */
  lemma WindowReads(history: seq<Request>, k: RowKey)
    ensures MinOf(Lookup(Run(history).traces, k)) == Lo(Span(AllRows(history), k))
    ensures MaxOf(Lookup(Run(history).traces, k)) == Hi(Span(AllRows(history), k))
  {
    RunIsRunFromEmpty(history);
    WindowFrom(EMPTY, history, k);
  }

  ghost predicate Mentions(req: Request, k: RowKey) {
    Admissible(req.batch) && k.project == req.project
    && (k.id in ExplicitIds(req.batch) || k.id in TraceIds(ProposedRows(req)))
  }

  lemma {:induction false} TouchedIffMentioned(history: seq<Request>, k: RowKey)
    ensures Touches(history, k) != [] <==> exists i :: 0 <= i < |history| && Mentions(history[i], k)
    decreases |history|
  {
    if history != [] {
      var init, last := history[..|history| - 1], history[|history| - 1];
      TouchedIffMentioned(init, k);
      TouchWindows(last, k);
      assert forall i :: 0 <= i < |history| ==> history[i] == (if i < |init| then init[i] else last);
    }
  }

  /** After any history, every trace row is the declarative reading of that history. */
  lemma TraceReading(history: seq<Request>, k: RowKey)
    ensures k in Run(history).traces <==> exists i :: 0 <= i < |history| && Mentions(history[i], k)
    ensures k in Run(history).traces ==> RowReads(Touches(history, k), Run(history).traces[k])
    ensures k in Run(history).traces
            ==> exists w :: IsSpan(AllRows(history), k, w)
                            && Run(history).traces[k].obsMin == Lo(w) && Run(history).traces[k].obsMax == Hi(w)
  {
    TouchedIffMentioned(history, k);
    RunAt(history, k);
    WindowReads(history, k);
    SpanIsMinMax(AllRows(history), k);
    if Touches(history, k) != [] {
      FoldReads(Touches(history, k));
    }
  }

  // ---------------------------------------------------------------- coverage

  ghost predicate HasTraces(t: Tables) {
    forall key :: key in t.observations ==> TraceKey(t.observations[key]) in t.traces
  }

  ghost predicate CoveredAt(t: Tables, key: ObsKey)
    requires key in t.observations
  {
    var r := t.observations[key];
    && r.Key() == key
    && TraceKey(r) in t.traces
    && var row := t.traces[TraceKey(r)];
       row.obsMin.Some? && row.obsMax.Some? && row.obsMin.value <= r.startedAt <= row.obsMax.value
  }

  /** Every stored observation lies inside the stored window of its trace, which exists. */
  ghost predicate Covered(t: Tables) {
    forall key :: key in t.observations ==> CoveredAt(t, key)
  }

  /** A trace row without a minimum has no maximum either. */
  ghost predicate Paired(t: Tables) {
    forall k :: k in t.traces ==> (t.traces[k].obsMin.Some? <==> t.traces[k].obsMax.Some?)
  }

  lemma StoredWasSent(history: seq<Request>, key: ObsKey) returns (i: nat)
    requires key in Run(history).observations
    ensures i < |AllRows(history)| && AllRows(history)[i] == Run(history).observations[key]
    ensures Run(history).observations[key].Key() == key
  {
    StoredRowsAreFirst(history);
    var rows := AllRows(history);
    assert FirstOf(rows, key, Lookup(Run(history).observations, key));
    i :| 0 <= i < |rows| && rows[i] == Run(history).observations[key] && rows[i].Key() == key;
  }

  /** On every reachable state the windows cover the observations, so no bounded scan can miss one. */
  lemma ReachableIsCovered(history: seq<Request>)
    ensures Covered(Run(history)) && Paired(Run(history)) && HasTraces(Run(history))
  {
    var t := Run(history);
    forall key | key in t.observations ensures CoveredAt(t, key) {
      var i := StoredWasSent(history, key);
      var k := TraceKey(t.observations[key]);
      WindowReads(history, k);
      SpanIsMinMax(AllRows(history), k);
    }
    forall k | k in t.traces ensures t.traces[k].obsMin.Some? <==> t.traces[k].obsMax.Some? {
      WindowReads(history, k);
    }
  }

  // ---------------------------------------------------------------- exactness

  /** w is the smallest interval around the stored observations of k, None when there are none. */
  ghost predicate IsStoredSpan(obs: map<ObsKey, ObsRow>, k: RowKey, w: Option<Window>) {
    match w
    case None => forall key :: key in obs ==> TraceKey(obs[key]) != k
    case Some(v) =>
      && (exists key :: key in obs && TraceKey(obs[key]) == k && obs[key].startedAt == v.lo)
      && (exists key :: key in obs && TraceKey(obs[key]) == k && obs[key].startedAt == v.hi)
      && (forall key :: key in obs && TraceKey(obs[key]) == k ==> v.lo <= obs[key].startedAt <= v.hi)
  }

  lemma StoredSpanIsUnique(obs: map<ObsKey, ObsRow>, k: RowKey, v: Option<Window>, w: Option<Window>)
    requires IsStoredSpan(obs, k, v) && IsStoredSpan(obs, k, w)
    ensures v == w
  {
  }

  lemma {:induction false} StoredSpanExists(obs: map<ObsKey, ObsRow>, k: RowKey)
    ensures exists w :: IsStoredSpan(obs, k, w)
    decreases obs.Keys
  {
    if key :| key in obs {
      var rest := obs - {key};
      assert rest.Keys < obs.Keys;
      StoredSpanExists(rest, k);
      var w :| IsStoredSpan(rest, k, w);
      SpanOfOneMore(rest, key, obs[key], k, w);
      assert obs == rest[key := obs[key]];
    } else {
      assert IsStoredSpan(obs, k, None);
    }
  }

  lemma SpanOfOneMore(rest: map<ObsKey, ObsRow>, key: ObsKey, r: ObsRow, k: RowKey, w: Option<Window>)
    requires key !in rest && IsStoredSpan(rest, k, w)
    ensures IsStoredSpan(rest[key := r], k, if TraceKey(r) == k then Some(Widen(w, r.startedAt)) else w)
  {
    var obs := rest[key := r];
    assert obs[key] == r && forall x :: x in rest ==> x in obs && obs[x] == rest[x];
    if w.Some? {
      var a :| a in rest && TraceKey(rest[a]) == k && rest[a].startedAt == w.value.lo;
      var b :| b in rest && TraceKey(rest[b]) == k && rest[b].startedAt == w.value.hi;
      assert obs[a] == rest[a] && obs[b] == rest[b];
    }
  }

  ghost function StoredSpan(obs: map<ObsKey, ObsRow>, k: RowKey): (w: Option<Window>)
    ensures IsStoredSpan(obs, k, w)
  {
    StoredSpanExists(obs, k);
    var w :| IsStoredSpan(obs, k, w);
    w
  }

  ghost predicate ExactAt(t: Tables, k: RowKey)
    requires k in t.traces
  {
    var w := StoredSpan(t.observations, k);
    t.traces[k].obsMin == Lo(w) && t.traces[k].obsMax == Hi(w)
  }

  /** Every stored window is exactly the span of the stored observations of its trace. */
  ghost predicate Exact(t: Tables) {
    forall k :: k in t.traces ==> ExactAt(t, k)
  }

  /** The first row of every key: what the conflict clause lets in. */
  function Kept(rows: seq<ObsRow>): seq<ObsRow> {
    if rows == [] then []
    else
      var before := Kept(rows[..|rows| - 1]);
      var r := rows[|rows| - 1];
      if exists s :: s in before && s.Key() == r.Key() then before else before + [r]
  }

  lemma {:induction false} KeptIsInserted(rows: seq<ObsRow>)
    ensures forall r :: r in Kept(rows) <==> Lookup(InsertObservations(map[], rows), r.Key()) == Some(r)
    ensures forall key :: key in InsertObservations(map[], rows) ==> InsertObservations(map[], rows)[key].Key() == key
    decreases |rows|
  {
    if rows != [] {
      var init, last := rows[..|rows| - 1], rows[|rows| - 1];
      KeptIsInserted(init);
      var m := InsertObservations(map[], init);
      assert last.Key() in m <==> exists s :: s in Kept(init) && s.Key() == last.Key() by {
        if last.Key() in m {
          assert m[last.Key()] in Kept(init);
        }
      }
    }
  }

  lemma KeptIsStored(history: seq<Request>)
    ensures forall r :: r in Kept(AllRows(history)) <==> Lookup(Run(history).observations, r.Key()) == Some(r)
    ensures forall key :: key in Run(history).observations ==> Run(history).observations[key].Key() == key
  {
    RunIsRunFromEmpty(history);
    StoredRows(EMPTY, history);
    KeptIsInserted(AllRows(history));
  }

  /** What a trace stores spans what was kept for it. */
  lemma StoredSpanOfKept(history: seq<Request>, k: RowKey)
    ensures StoredSpan(Run(history).observations, k) == Span(Kept(AllRows(history)), k)
  {
    var obs, kept := Run(history).observations, Kept(AllRows(history));
    KeptIsStored(history);
    SpanIsMinMax(kept, k);
    var w := Span(kept, k);
    forall key | key in obs ensures obs[key] in kept {
      assert Lookup(obs, obs[key].Key()) == Some(obs[key]);
    }
    forall i | 0 <= i < |kept| ensures Lookup(obs, kept[i].Key()) == Some(kept[i]) {
      assert kept[i] in kept;
    }
    assert IsStoredSpan(obs, k, w);
    StoredSpanIsUnique(obs, k, StoredSpan(obs, k), w);
  }

  /** A sent row whose key was kept for another trace: the conflict clause dropped it. */
  predicate Displaced(rows: seq<ObsRow>, r: ObsRow) {
    exists s :: s in Kept(rows) && s.Key() == r.Key() && TraceKey(s) != TraceKey(r)
  }

  predicate Encloses(w: Option<Window>, s: Time) {
    w.Some? && w.value.lo <= s <= w.value.hi
  }

  /** Every row dropped for another trace falls inside what was kept for its own. */
  predicate DisplacedAreEnclosed(rows: seq<ObsRow>) {
    forall i :: 0 <= i < |rows| && Displaced(rows, rows[i])
      ==> Encloses(Span(Kept(rows), TraceKey(rows[i])), rows[i].startedAt)
  }

  lemma SentIsStoredSomewhere(history: seq<Request>, i: nat)
    requires i < |AllRows(history)|
    ensures AllRows(history)[i].Key() in Run(history).observations
    ensures Run(history).observations[AllRows(history)[i].Key()].Key() == AllRows(history)[i].Key()
  {
    StoredRowsAreFirst(history);
    var key := AllRows(history)[i].Key();
    assert FirstOf(AllRows(history), key, Lookup(Run(history).observations, key));
  }

  /** A row sent for k lies in the stored span of k when it was kept, or displaced but enclosed. */
  lemma SentIsEnclosed(history: seq<Request>, i: nat)
    requires i < |AllRows(history)| && DisplacedAreEnclosed(AllRows(history))
    ensures Encloses(StoredSpan(Run(history).observations, TraceKey(AllRows(history)[i])), AllRows(history)[i].startedAt)
  {
    var r, obs := AllRows(history)[i], Run(history).observations;
    SentIsStoredSomewhere(history, i);
    KeptIsStored(history);
    StoredSpanOfKept(history, TraceKey(r));
    var s := obs[r.Key()];
    assert s in Kept(AllRows(history));
    assert TraceKey(s) != TraceKey(r) ==> Displaced(AllRows(history), r);
  }

  lemma SpansAgree(rows: seq<ObsRow>, obs: map<ObsKey, ObsRow>, k: RowKey, sent: Option<Window>, stored: Option<Window>)
    requires IsSpan(rows, k, sent) && IsStoredSpan(obs, k, stored)
    requires forall i :: 0 <= i < |rows| && TraceKey(rows[i]) == k ==> Encloses(stored, rows[i].startedAt)
    requires forall key :: key in obs && TraceKey(obs[key]) == k ==> Encloses(sent, obs[key].startedAt)
    ensures sent == stored
  {
  }

  lemma ExactFromEnclosure(history: seq<Request>, k: RowKey)
    requires DisplacedAreEnclosed(AllRows(history)) && k in Run(history).traces
    ensures ExactAt(Run(history), k)
  {
    var rows, obs := AllRows(history), Run(history).observations;
    var sent, stored := Span(rows, k), StoredSpan(obs, k);
    WindowReads(history, k);
    SpanIsMinMax(rows, k);
    forall i | 0 <= i < |rows| && TraceKey(rows[i]) == k ensures Encloses(stored, rows[i].startedAt) {
      SentIsEnclosed(history, i);
    }
    forall key | key in obs && TraceKey(obs[key]) == k ensures Encloses(sent, obs[key].startedAt) {
      var i := StoredWasSent(history, key);
    }
    SpansAgree(rows, obs, k, sent, stored);
  }

  lemma EnclosureFromExact(history: seq<Request>, i: nat)
    requires Exact(Run(history)) && i < |AllRows(history)|
    ensures Encloses(StoredSpan(Run(history).observations, TraceKey(AllRows(history)[i])), AllRows(history)[i].startedAt)
  {
    var k := TraceKey(AllRows(history)[i]);
    WindowReads(history, k);
    SpanIsMinMax(AllRows(history), k);
    assert k in Run(history).traces;
    assert ExactAt(Run(history), k);
  }

  /** The windows are exact precisely when no displaced row reaches outside what was kept for its trace. */
  lemma ExactIffDisplacedEnclosed(history: seq<Request>)
    ensures Exact(Run(history)) <==> DisplacedAreEnclosed(AllRows(history))
  {
    var rows := AllRows(history);
    if Exact(Run(history)) {
      forall i: nat | i < |rows| ensures Encloses(Span(Kept(rows), TraceKey(rows[i])), rows[i].startedAt) {
        EnclosureFromExact(history, i);
        StoredSpanOfKept(history, TraceKey(rows[i]));
      }
    }
    if DisplacedAreEnclosed(rows) {
      forall k | k in Run(history).traces ensures ExactAt(Run(history), k) {
        ExactFromEnclosure(history, k);
      }
    }
  }

  /** A key (id, started_at) always names the same trace. */
  ghost predicate KeyConsistent(rows: seq<ObsRow>) {
    forall i, j :: 0 <= i < |rows| && 0 <= j < |rows| && rows[i].Key() == rows[j].Key()
      ==> rows[i].traceId == rows[j].traceId
  }

  lemma {:induction false} KeptWereSent(rows: seq<ObsRow>)
    ensures forall r :: r in Kept(rows) ==> r in rows
    decreases |rows|
  {
    if rows != [] {
      KeptWereSent(rows[..|rows| - 1]);
    }
  }

  /** Under consistent keys nothing is displaced, so the windows are exact and 0005 has nothing to do. */
  lemma ConsistentKeysAreExact(history: seq<Request>)
    requires KeyConsistent(AllRows(history))
    ensures Exact(Run(history)) && Repair(Run(history)) == Run(history)
  {
    var rows, t := AllRows(history), Run(history);
    KeptWereSent(rows);
    ExactIffDisplacedEnclosed(history);
    RepairOfExact(t);
  }

  lemma OneObservation(req: Request, o: Obs)
    requires req.batch.traces == [] && req.batch.observations == [o]
    requires o.startedAt.Some? && InWindow(o.startedAt.value, req.now)
    ensures RowsBy(req) == [MakeRow((o, None), req.project, req.book)]
  {
    var pair: Pair := (o, None);
    assert Pairs(req.batch) == [pair] && [pair][..0] == [];
    assert AcceptedRows([pair][..0], req.project, req.now, req.book) == [];
    assert Accepts(pair, req.now);
  }

  lemma RowsOfTwo(g: Request, h: Request)
    ensures AllRows([g, h]) == RowsBy(g) + RowsBy(h)
  {
    assert [g, h][..1] == [g] && [g][..0] == [];
    assert AllRows([g]) == RowsBy(g);
  }

  lemma KeptOfTwo(r: ObsRow, s: ObsRow)
    requires r.Key() == s.Key()
    ensures Kept([r, s]) == [r]
  {
    assert [r, s][..1] == [r] && [r][..0] == [];
    assert Kept([r]) == [r];
    assert r in Kept([r]);
  }

  /** Without consistent keys the windows need not be exact: a key sent again for another trace is dropped by
      the conflict clause, yet opens a window for that trace. */
  lemma RepeatedKeyBreaksExactness(history: seq<Request>, r: ObsRow, s: ObsRow)
    requires AllRows(history) == [r, s] && r.Key() == s.Key() && TraceKey(r) != TraceKey(s)
    ensures !Exact(Run(history)) && StoredSpan(Run(history).observations, TraceKey(s)).None?
  {
    KeptOfTwo(r, s);
    StoredSpanOfKept(history, TraceKey(s));
    assert [r][..0] == [] && Span([r], TraceKey(s)) == None;
    assert r in Kept([r, s]) && [r, s][1] == s && Displaced([r, s], s);
    ExactIffDisplacedEnclosed(history);
  }

  /** One flat observation under the given trace, always with the same id and start. */
  function Repeated(trace: Id): Obs {
    Obs(2, Some(trace), Some(0), None, None, Detail(None, None, None, None, None, None, ""))
  }

  function Sending(o: Obs): Request {
    Request(1, Batch([], [o], [], None), None, 0, [])
  }

  lemma RepeatedRows(history: seq<Request>)
    requires history == [Sending(Repeated(3)), Sending(Repeated(4))]
    ensures AllRows(history) == [MakeRow((Repeated(3), None), 1, []), MakeRow((Repeated(4), None), 1, [])]
  {
    OneObservation(history[0], Repeated(3));
    OneObservation(history[1], Repeated(4));
    RowsOfTwo(history[0], history[1]);
  }

  /** Such a run exists. */
  lemma WindowsCanBeTooWide()
    ensures !Exact(Run([Sending(Repeated(3)), Sending(Repeated(4))]))
  {
    var history := [Sending(Repeated(3)), Sending(Repeated(4))];
    RepeatedRows(history);
    RepeatedKeyBreaksExactness(history, AllRows(history)[0], AllRows(history)[1]);
  }

  // ---------------------------------------------------------------- migration 0005

  ghost function RepairRow(row: TraceRow, w: Option<Window>): TraceRow {
    if w.None? then row else row.(obsMin := Lo(w), obsMax := Hi(w))
  }

  /** The migration: traces with observations get the span of those observations, others stay. */
  ghost function Repair(t: Tables): Tables {
    t.(traces := map k | k in t.traces :: RepairRow(t.traces[k], StoredSpan(t.observations, k)))
  }

  lemma RepairOfExact(t: Tables)
    requires Exact(t)
    ensures Repair(t) == t
  {
    forall k | k in t.traces ensures RepairRow(t.traces[k], StoredSpan(t.observations, k)) == t.traces[k] {
      assert ExactAt(t, k);
    }
    assert Repair(t).traces == t.traces;
  }

  /** From any state the repair makes the windows cover, and exact wherever there is anything to cover,
      if and only if every observation has a trace row. */
  lemma RepairRestores(t: Tables)
    requires forall key :: key in t.observations ==> t.observations[key].Key() == key
    ensures Covered(Repair(t)) <==> HasTraces(t)
    ensures forall k :: k in Repair(t).traces && StoredSpan(t.observations, k).Some? ==> ExactAt(Repair(t), k)
    ensures Repair(Repair(t)) == Repair(t)
  {
    var u := Repair(t);
    if HasTraces(t) {
      forall key | key in u.observations ensures CoveredAt(u, key) {
        var k := TraceKey(t.observations[key]);
        assert IsStoredSpan(t.observations, k, StoredSpan(t.observations, k));
      }
    }
    if Covered(u) {
      forall key | key in t.observations ensures TraceKey(t.observations[key]) in t.traces {
        assert CoveredAt(u, key);
      }
    }
    assert Repair(u).traces == u.traces;
  }

  /** The repaired windows are exact, every one of them, if and only if no trace without observations kept a
      window: the migration has no row to measure such a trace by and leaves it as it is. */
  lemma RepairIsExactIff(t: Tables)
    ensures Exact(Repair(t)) <==> forall k :: k in t.traces && StoredSpan(t.observations, k).None?
                                    ==> t.traces[k].obsMin.None? && t.traces[k].obsMax.None?
  {
    var u := Repair(t);
    assert forall k :: k in t.traces ==> u.traces[k] == RepairRow(t.traces[k], StoredSpan(t.observations, k));
    if Exact(u) {
      forall k | k in t.traces && StoredSpan(t.observations, k).None?
        ensures t.traces[k].obsMin.None? && t.traces[k].obsMax.None?
      {
        assert ExactAt(u, k);
      }
    }
  }

  /** Such a run exists, and every observation of it has a trace row. */
  lemma RepairCanLeaveAWindow()
    ensures var t := Run([Sending(Repeated(3)), Sending(Repeated(4))]); HasTraces(t) && !Exact(Repair(t))
  {
    var history := [Sending(Repeated(3)), Sending(Repeated(4))];
    var t, k := Run(history), RowKey(1, 4);
    ReachableIsCovered(history);
    RepeatedRows(history);
    var r, s := AllRows(history)[0], AllRows(history)[1];
    WindowReads(history, k);
    SpanIsMinMax(AllRows(history), k);
    assert TraceKey(s) == k;
    RepeatedKeyBreaksExactness(history, r, s);
    RepairIsExactIff(t);
  }

  /** The migration as it runs: group the observations, then overwrite the windows that disagree. */
  method RepairWindows(store: Router.Store)
    modifies store`traces
    ensures store.Contents() == Repair(old(store.Contents()))
  {
    var groups := GroupByTrace(store.observations);
    store.traces := map k | k in store.traces ::
      if k in groups && (store.traces[k].obsMin != Some(groups[k].lo) || store.traces[k].obsMax != Some(groups[k].hi))
      then store.traces[k].(obsMin := Some(groups[k].lo), obsMax := Some(groups[k].hi))
      else store.traces[k];
    ghost var before := old(store.Contents());
    forall k | k in before.traces ensures store.traces[k] == Repair(before).traces[k] {
      assert Lookup(groups, k) == StoredSpan(before.observations, k);
    }
    assert store.traces == Repair(before).traces;
  }

  method GroupByTrace(obs: map<ObsKey, ObsRow>) returns (groups: map<RowKey, Window>)
    ensures forall k :: Lookup(groups, k) == StoredSpan(obs, k)
  {
    groups := map[];
    var todo := obs.Keys;
    assert obs - todo == map[];
    while todo != {}
      invariant todo <= obs.Keys
      invariant forall k :: IsStoredSpan(obs - todo, k, Lookup(groups, k))
      decreases |todo|
    {
      var key :| key in todo;
      GroupOneMore(obs, todo, key, groups);
      groups := groups[TraceKey(obs[key]) := Widen(Lookup(groups, TraceKey(obs[key])), obs[key].startedAt)];
      todo := todo - {key};
    }
    assert obs - todo == obs;
    forall k ensures Lookup(groups, k) == StoredSpan(obs, k) {
      StoredSpanIsUnique(obs, k, Lookup(groups, k), StoredSpan(obs, k));
    }
  }

  lemma GroupOneMore(obs: map<ObsKey, ObsRow>, todo: set<ObsKey>, key: ObsKey, groups: map<RowKey, Window>)
    requires todo <= obs.Keys && key in todo
    requires forall k :: IsStoredSpan(obs - todo, k, Lookup(groups, k))
    ensures var r := obs[key];
            var next := groups[TraceKey(r) := Widen(Lookup(groups, TraceKey(r)), r.startedAt)];
            forall k :: IsStoredSpan(obs - (todo - {key}), k, Lookup(next, k))
  {
    var r, done := obs[key], obs - todo;
    var next := groups[TraceKey(r) := Widen(Lookup(groups, TraceKey(r)), r.startedAt)];
    assert obs - (todo - {key}) == done[key := r];
    forall k ensures IsStoredSpan(done[key := r], k, Lookup(next, k)) {
      SpanOfOneMore(done, key, r, k, Lookup(groups, k));
    }
  }
}
