/** Which traces are stored, since when, with which start and window, read off the batches themselves. */
module Presence {
  import opened Types
  import opened Batches
  import opened Writes
  import opened History
  import opened Windows
  import opened Readings

  // ---------------------------------------------------------------- where a batch puts an observation

  /** The observation names this trace; or names none and is nested in it; or, naming none and nested in none, is
      itself its trace. */
  predicate BelongsTo(pair: Pair, trace: Id) {
    var (o, enclosing) := pair;
    if o.traceId.Some? then o.traceId == Some(trace)
    else if enclosing.Some? then enclosing.value.id == trace
    else o.id == trace
  }

  /** The observation has this start, or has none and is nested in a trace that does. */
  predicate StartsAt(pair: Pair, t: Time) {
    var (o, enclosing) := pair;
    o.startedAt == Some(t) || (o.startedAt.None? && enclosing.Some? && enclosing.value.startedAt == Some(t))
  }

  /** The start lies between a week ago and tomorrow. */
  predicate Acceptable(pair: Pair, t: Time, now: Time) {
    StartsAt(pair, t) && now - 7 * MICROS_PER_DAY <= t <= now + MICROS_PER_DAY
  }

  /** The p-th observation of an admitted batch is accepted for trace k, with this start. */
  predicate Places(req: Request, p: nat, k: RowKey, t: Time) {
    && Admissible(req.batch) && req.project == k.project && p < |Pairs(req.batch)|
    && BelongsTo(Pairs(req.batch)[p], k.id) && Acceptable(Pairs(req.batch)[p], t, req.now)
  }

  ghost predicate Stands(rows: seq<ObsRow>, k: RowKey, t: Time) {
    exists i :: 0 <= i < |rows| && TraceKey(rows[i]) == k && rows[i].startedAt == t
  }

  lemma {:induction false} RowsArePlaced(pairs: seq<Pair>, req: Request, k: RowKey, t: Time)
    ensures Stands(AcceptedRows(pairs, req.project, req.now, req.book), k, t)
            <==> req.project == k.project
                 && exists p :: 0 <= p < |pairs| && BelongsTo(pairs[p], k.id) && Acceptable(pairs[p], t, req.now)
    decreases |pairs|
  {
    if pairs != [] {
      var init, last := pairs[..|pairs| - 1], pairs[|pairs| - 1];
      RowsArePlaced(init, req, k, t);
      assert forall p :: 0 <= p < |pairs| ==> pairs[p] == (if p < |init| then init[p] else last);
      var before := AcceptedRows(init, req.project, req.now, req.book);
      if Accepts(last, req.now) {
        var r := MakeRow(last, req.project, req.book);
        StandsStep(before, r, k, t);
        assert TraceKey(r) == k <==> req.project == k.project && BelongsTo(last, k.id);
      }
    }
  }

  lemma StandsStep(rows: seq<ObsRow>, r: ObsRow, k: RowKey, t: Time)
    ensures Stands(rows + [r], k, t) <==> Stands(rows, k, t) || (TraceKey(r) == k && r.startedAt == t)
  {
    var all := rows + [r];
    assert all[|rows|] == r && forall i :: 0 <= i < |rows| ==> all[i] == rows[i];
  }

  lemma RequestPlaces(req: Request, k: RowKey, t: Time)
    ensures Stands(RowsBy(req), k, t) <==> exists p: nat :: Places(req, p, k, t)
  {
    if Admissible(req.batch) {
      RowsArePlaced(Pairs(req.batch), req, k, t);
      var pairs := Pairs(req.batch);
      if Stands(RowsBy(req), k, t) {
        var p :| 0 <= p < |pairs| && BelongsTo(pairs[p], k.id) && Acceptable(pairs[p], t, req.now);
        assert Places(req, p, k, t);
      }
    }
  }

  lemma {:induction false} HistoryPlaces(h: seq<Request>, k: RowKey, t: Time)
    ensures Stands(AllRows(h), k, t) <==> exists i: nat, p: nat :: 0 <= i < |h| && Places(h[i], p, k, t)
    decreases |h|
  {
    if h != [] {
      var init, last := h[..|h| - 1], h[|h| - 1];
      HistoryPlaces(init, k, t);
      RequestPlaces(last, k, t);
      StandsInParts(AllRows(init), RowsBy(last), k, t);
      if p: nat :| Places(last, p, k, t) {
        assert Places(h[|init|], p, k, t);
      }
      assert forall i :: 0 <= i < |h| ==> h[i] == (if i < |init| then init[i] else last);
    }
  }

  lemma StandsInParts(a: seq<ObsRow>, b: seq<ObsRow>, k: RowKey, t: Time)
    ensures Stands(a + b, k, t) <==> Stands(a, k, t) || Stands(b, k, t)
  {
    var all := a + b;
    assert forall i :: 0 <= i < |b| ==> all[|a| + i] == b[i];
    assert forall i :: 0 <= i < |a| ==> all[i] == a[i];
  }

  lemma {:induction false} SpanOfPlaces(h: seq<Request>, k: RowKey)
    ensures var w := Span(AllRows(h), k);
      && (w.None? <==> forall i: nat, p: nat, t: Time :: 0 <= i < |h| ==> !Places(h[i], p, k, t))
      && (w.Some? ==>
            && (exists i: nat, p: nat :: 0 <= i < |h| && Places(h[i], p, k, w.value.lo))
            && (exists i: nat, p: nat :: 0 <= i < |h| && Places(h[i], p, k, w.value.hi))
            && forall i: nat, p: nat, t: Time :: 0 <= i < |h| && Places(h[i], p, k, t) ==> w.value.lo <= t <= w.value.hi)
  {
    var rows, w := AllRows(h), Span(AllRows(h), k);
    SpanIsMinMax(rows, k);
    forall i: nat, p: nat, t: Time | 0 <= i < |h| && Places(h[i], p, k, t)
      ensures Stands(rows, k, t)
    {
      HistoryPlaces(h, k, t);
    }
    if w.Some? {
      assert Stands(rows, k, w.value.lo) && Stands(rows, k, w.value.hi);
      HistoryPlaces(h, k, w.value.lo);
      HistoryPlaces(h, k, w.value.hi);
    }
  }

  /** The stored window of a trace runs from the least to the greatest start accepted for it; there is none when
      nothing was. */
  lemma {:induction false} WindowIsOfTheStartsSent(h: seq<Request>, k: RowKey)
    requires k in Run(h).traces
    ensures var row := Run(h).traces[k];
      && (row.obsMin.None? <==> row.obsMax.None?)
      && (row.obsMin.None? <==> forall i: nat, p: nat, t: Time :: 0 <= i < |h| ==> !Places(h[i], p, k, t))
      && (row.obsMin.Some? ==>
            && (exists i: nat, p: nat :: 0 <= i < |h| && Places(h[i], p, k, row.obsMin.value))
            && (exists i: nat, p: nat :: 0 <= i < |h| && Places(h[i], p, k, row.obsMax.value))
            && forall i: nat, p: nat, t: Time :: 0 <= i < |h| && Places(h[i], p, k, t)
                 ==> row.obsMin.value <= t <= row.obsMax.value)
  {
    var w := Span(AllRows(h), k);
    WindowReads(h, k);
    SpanOfPlaces(h, k);
  }

  // ---------------------------------------------------------------- which traces are stored, since when

  /** The request says something of the trace: it carries it, or an accepted observation of it. */
  ghost predicate Speaks(req: Request, k: RowKey) {
    (exists j: nat :: Carries(req, j, k)) || exists p: nat, t: Time :: Places(req, p, k, t)
  }

  lemma SpeaksIffTouches(req: Request, k: RowKey)
    ensures Speaks(req, k) <==> TouchesBy(req, k) != []
    ensures forall i :: 0 <= i < |TouchesBy(req, k)| ==> TouchesBy(req, k)[i].at == req.now
  {
    TouchWindows(req, k);
    ExplicitIffCarried(req, k);
    NamedIffPlaced(req, k);
    if Admissible(req.batch) {
      SendsOk(req);
      SendTouchesAt(Sends(req), k, req.now);
    }
  }

  lemma ExplicitIffCarried(req: Request, k: RowKey)
    ensures (exists j: nat :: Carries(req, j, k))
            <==> Admissible(req.batch) && k.project == req.project && k.id in ExplicitIds(req.batch)
  {
    if Admissible(req.batch) && k.project == req.project && k.id in ExplicitIds(req.batch) {
      var j :| 0 <= j < |req.batch.traces| && req.batch.traces[j].id == k.id;
      assert Carries(req, j, k);
    }
  }

  lemma NamedIffPlaced(req: Request, k: RowKey)
    ensures (exists p: nat, t: Time :: Places(req, p, k, t))
            <==> Admissible(req.batch) && k.project == req.project && k.id in TraceIds(ProposedRows(req))
  {
    if p: nat, t: Time :| Places(req, p, k, t) {
      RequestPlaces(req, k, t);
      assert Stands(RowsBy(req), k, t);
    }
    if Admissible(req.batch) && k.project == req.project && k.id in TraceIds(ProposedRows(req)) {
      var rows := ProposedRows(req);
      var i :| 0 <= i < |rows| && rows[i].traceId == k.id;
      ProposedProject(req);
      assert Stands(rows, k, rows[i].startedAt);
      RequestPlaces(req, k, rows[i].startedAt);
    }
  }

  lemma {:induction false} SendTouchesAt(sends: seq<TraceSend>, k: RowKey, now: Time)
    requires AllStarted(sends)
    ensures forall i :: 0 <= i < |SendTouches(sends, k, now)| ==> SendTouches(sends, k, now)[i].at == now
    ensures forall i :: 0 <= i < |SendTouches(sends, k, now)| ==> SendTouches(sends, k, now)[i].Sent?
    decreases |sends|
  {
    if sends != [] {
      SendTouchesAt(sends[..|sends| - 1], k, now);
    }
  }

  /** The i-th request is the first, or the last, that says something of the trace. */
  ghost predicate FirstToSpeak(h: seq<Request>, i: nat, k: RowKey) {
    i < |h| && Speaks(h[i], k) && forall a :: 0 <= a < i ==> !Speaks(h[a], k)
  }

  ghost predicate LastToSpeak(h: seq<Request>, i: nat, k: RowKey) {
    i < |h| && Speaks(h[i], k) && forall a :: i < a < |h| ==> !Speaks(h[a], k)
  }

  lemma {:induction false} FirstSpeaker(h: seq<Request>, k: RowKey) returns (i: nat)
    requires Touches(h, k) != []
    ensures FirstToSpeak(h, i, k) && TouchesBy(h[i], k) != [] && Touches(h, k)[0] == TouchesBy(h[i], k)[0]
    decreases |h|
  {
    var init, req := h[..|h| - 1], h[|h| - 1];
    if Touches(init, k) == [] {
      Silence(init, k);
      SpeaksIffTouches(req, k);
      assert Touches(h, k) == TouchesBy(req, k);
      i := |init|;
      forall a | 0 <= a < i ensures !Speaks(h[a], k) {
        assert h[a] == init[a];
      }
    } else {
      i := FirstSpeaker(init, k);
      assert h[i] == init[i];
      forall a | 0 <= a < i ensures !Speaks(h[a], k) {
        assert h[a] == init[a];
      }
    }
  }

  lemma {:induction false} LastSpeaker(h: seq<Request>, k: RowKey) returns (i: nat)
    requires Touches(h, k) != []
    ensures LastToSpeak(h, i, k) && Touches(h, k)[|Touches(h, k)| - 1].at == h[i].now
    decreases |h|
  {
    var init, req := h[..|h| - 1], h[|h| - 1];
    TouchesEnd(h, k);
    if Speaks(req, k) {
      i := |init|;
    } else {
      i := LastSpeaker(init, k);
      StillLast(init, req, i, k);
      assert h == init + [req];
    }
  }

  lemma TouchesEnd(h: seq<Request>, k: RowKey)
    requires h != []
    ensures var req, touches := h[|h| - 1], Touches(h, k);
            if Speaks(req, k) then touches != [] && touches[|touches| - 1].at == req.now
            else touches == Touches(h[..|h| - 1], k)
  {
    var req := h[|h| - 1];
    SpeaksIffTouches(req, k);
    if TouchesBy(req, k) != [] {
      LastOfParts(Touches(h[..|h| - 1], k), TouchesBy(req, k));
    }
  }

  lemma LastOfParts(a: seq<Touch>, b: seq<Touch>)
    requires b != []
    ensures (a + b)[|a + b| - 1] == b[|b| - 1]
  {
  }

  lemma StillLast(init: seq<Request>, req: Request, i: nat, k: RowKey)
    requires LastToSpeak(init, i, k) && !Speaks(req, k)
    ensures LastToSpeak(init + [req], i, k)
  {
    var h := init + [req];
    assert forall a :: 0 <= a < |init| ==> h[a] == init[a];
  }

  lemma {:induction false} Silence(h: seq<Request>, k: RowKey)
    ensures Touches(h, k) == [] <==> forall a :: 0 <= a < |h| ==> !Speaks(h[a], k)
    decreases |h|
  {
    if h != [] {
      var init, req := h[..|h| - 1], h[|h| - 1];
      Silence(init, k);
      SpeaksIffTouches(req, k);
      assert forall i :: 0 <= i < |h| ==> h[i] == (if i < |init| then init[i] else req);
    }
  }

  /** A trace is stored once some admitted batch carries it or an accepted observation of it; it keeps the moment of
      the first such request and the moment of the last. */
  lemma StoredSinceFirstSpoken(h: seq<Request>, k: RowKey)
    ensures k in Run(h).traces <==> exists i :: 0 <= i < |h| && Speaks(h[i], k)
    ensures k in Run(h).traces ==>
              exists i: nat, j: nat :: FirstToSpeak(h, i, k) && LastToSpeak(h, j, k)
                             && Run(h).traces[k].createdAt == h[i].now && Run(h).traces[k].updatedAt == h[j].now
  {
    Silence(h, k);
    RunAt(h, k);
    if k in Run(h).traces {
      TraceReading(h, k);
      var i := FirstSpeaker(h, k);
      var j := LastSpeaker(h, k);
      SpeaksIffTouches(h[i], k);
    }
  }

  ghost predicate EverCarried(h: seq<Request>, k: RowKey) {
    exists i: nat, j: nat :: i < |h| && Carries(h[i], j, k)
  }

  /** The start is the last one sent for the trace; for a trace never sent, the least start among the observations of
      the first batch that had any of it. */
  lemma StartIsLastSentOrFirstSeen(h: seq<Request>, k: RowKey)
    requires k in Run(h).traces
    ensures var start := Run(h).traces[k].startedAt;
      if EverCarried(h, k) then LastSaid(h, k, StartSent, Some(start))
      else exists i: nat, p: nat :: FirstToSpeak(h, i, k) && Places(h[i], p, k, start)
                              && forall q: nat, t: Time :: Places(h[i], q, k, t) ==> start <= t
  {
    var start := Run(h).traces[k].startedAt;
    TraceReading(h, k);
    SentIffCarried(h, k);
    if EverCarried(h, k) {
      ColumnIsLastSaid(h, k, Start, StartSent, Some(start));
    } else {
      var i := FirstSpeaker(h, k);
      TouchWindows(h[i], k);
      FirstSeen(h[i], k, start);
      var p: nat :| Places(h[i], p, k, start);
    }
  }

  lemma FirstSeen(req: Request, k: RowKey, start: Time)
    requires Span(RowsBy(req), k).Some? && Span(RowsBy(req), k).value.lo == start
    ensures exists p: nat :: Places(req, p, k, start)
    ensures forall q: nat, t: Time :: Places(req, q, k, t) ==> start <= t
  {
    SpanIsMinMax(RowsBy(req), k);
    assert Stands(RowsBy(req), k, start);
    RequestPlaces(req, k, start);
    forall q: nat, t: Time | Places(req, q, k, t) ensures start <= t {
      RequestPlaces(req, k, t);
    }
  }

  predicate AnySent(touches: seq<Touch>) {
    exists i :: 0 <= i < |touches| && touches[i].Sent?
  }

  lemma AnySentInParts(a: seq<Touch>, b: seq<Touch>)
    ensures AnySent(a + b) <==> AnySent(a) || AnySent(b)
  {
    assert forall i :: 0 <= i < |a| ==> (a + b)[i] == a[i];
    assert forall i :: 0 <= i < |b| ==> (a + b)[|a| + i] == b[i];
  }

  lemma {:induction false} SentIffCarried(h: seq<Request>, k: RowKey)
    ensures AnySent(Touches(h, k)) <==> EverCarried(h, k)
    decreases |h|
  {
    if h != [] {
      var init, req := h[..|h| - 1], h[|h| - 1];
      SentIffCarried(init, k);
      SentByRequest(req, k);
      AnySentInParts(Touches(init, k), TouchesBy(req, k));
      CarriedStep(init, req, k);
      assert h == init + [req];
    }
  }

  lemma CarriedStep(init: seq<Request>, req: Request, k: RowKey)
    ensures EverCarried(init + [req], k) <==> EverCarried(init, k) || exists j: nat :: Carries(req, j, k)
  {
    var h := init + [req];
    assert forall i :: 0 <= i < |h| ==> h[i] == (if i < |init| then init[i] else req);
    if EverCarried(init, k) {
      var i: nat, j: nat :| i < |init| && Carries(init[i], j, k);
      assert Carries(h[i], j, k);
    }
    if j: nat :| Carries(req, j, k) {
      assert Carries(h[|init|], j, k);
    }
  }

  lemma SentByRequest(req: Request, k: RowKey)
    ensures AnySent(TouchesBy(req, k)) <==> exists j: nat :: Carries(req, j, k)
  {
    ExplicitIffCarried(req, k);
    if Admissible(req.batch) {
      SendsOk(req);
      var sent := SendTouches(Sends(req), k, req.now);
      SendTouchesAt(Sends(req), k, req.now);
      SendTouchesOf(req.batch.traces, ProposedRows(req), req.project,
                    EffectiveSdk(req.sdkHeader, req.batch.sdkVersion), k, req.now);
      if sent != [] {
        assert TouchesBy(req, k)[0] == sent[0];
      }
    }
  }
}
