/** From the store to the screen: the detail view's observations, handed to the tree builder. */
module TraceView {
  import opened Types
  import opened Batches
  import opened Writes
  import opened Ordering
  import opened Reads
  import F = SpanForest
  import R = SpanRows

  function SpanOf(r: ObsRow): F.Span {
    F.Span(r.id, r.detail.parent, r.startedAt, r.detail.body)
  }

  function SpansOf(rows: seq<ObsRow>): (spans: seq<F.Span>)
    ensures |spans| == |rows| && forall i :: 0 <= i < |rows| ==> spans[i] == SpanOf(rows[i])
  {
    seq(|rows|, i requires 0 <= i < |rows| => SpanOf(rows[i]))
  }

  /** The rows rendered for a list of observations. */
  ghost function Rendered(rows: seq<ObsRow>): seq<R.Row> {
    R.Flatten(F.Forest(F.FirstOccurrences(SpansOf(rows))))
  }

  /** The one row rendered for an id. */
  ghost predicate OnlyRow(rendered: seq<R.Row>, id: Id, span: F.Span, at: int) {
    && 0 <= at < |rendered| && rendered[at].span == span && span.id == id
    && forall j :: 0 <= j < |rendered| && rendered[j].span.id == id ==> j == at
  }

  /** Of the observations that share an id, the first in order is the one rendered, once. */
  lemma RenderedOnce(rows: seq<ObsRow>, j: nat) returns (first: nat, at: nat)
    requires j < |rows|
    ensures first <= j && rows[first].id == rows[j].id
    ensures OnlyRow(Rendered(rows), rows[j].id, SpanOf(rows[first]), at)
  {
    var spans, id := SpansOf(rows), rows[j].id;
    var m := F.FirstOccurrences(spans);
    F.HoldsFirst(spans, id);
    assert spans[j].id == id && F.FirstWith(spans, id, Lookup(m, id));
    first :| 0 <= first < |spans| && spans[first] == m[id] && forall i :: 0 <= i < first ==> spans[i].id != id;
    R.FirstOccurrencesKeyed(spans);
    R.ForestOnce(m);
    assert R.Once(m, Rendered(rows), m.Keys) && id in m.Keys;
    at :| 0 <= at < |Rendered(rows)| && Rendered(rows)[at].span.id == id;
  }

  lemma SelectedAt(obs: map<ObsKey, ObsRow>, keys: set<ObsKey>, rows: seq<ObsRow>, k: ObsKey) returns (n: nat)
    requires Selects(obs, keys, rows) && k in keys
    ensures n < |rows| && rows[n].Key() == k
  {
    n :| 0 <= n < |rows| && rows[n].Key() == k;
  }

  lemma StartsRise(rows: seq<ObsRow>, i: nat, j: nat)
    requires InOrder(rows) && i <= j < |rows|
    ensures rows[i].startedAt <= rows[j].startedAt
  {
    if i < j {
      assert Below(RankOf(rows[i].Key()), RankOf(rows[j].Key()));
    }
  }

  /** The one row of an id shows one span. */
  lemma SameSpan(rows: seq<ObsRow>, a: nat, b: nat, i: nat, j: nat, id: Id)
    requires a < |rows| && b < |rows|
    requires OnlyRow(Rendered(rows), id, SpanOf(rows[a]), i) && OnlyRow(Rendered(rows), id, SpanOf(rows[b]), j)
    ensures SpanOf(rows[a]) == SpanOf(rows[b])
  {
  }

  /** shown is the earliest-started of the keys with its id. */
  ghost predicate Earliest(keys: set<ObsKey>, shown: ObsKey) {
    shown in keys && forall k :: k in keys && k.id == shown.id ==> shown.startedAt <= k.startedAt
  }

  lemma EarliestIsShown(obs: map<ObsKey, ObsRow>, keys: set<ObsKey>, rows: seq<ObsRow>, key: ObsKey)
    returns (shown: ObsKey, at: nat)
    requires Selects(obs, keys, rows) && key in keys
    ensures shown in obs && shown.id == key.id && Earliest(keys, shown)
    ensures OnlyRow(Rendered(rows), key.id, SpanOf(obs[shown]), at)
  {
    var j := SelectedAt(obs, keys, rows, key);
    var first;
    first, at := RenderedOnce(rows, j);
    shown := rows[first].Key();
    assert Lookup(obs, shown) == Some(rows[first]);
    forall k | k in keys && k.id == key.id ensures shown.startedAt <= k.startedAt {
      var n := SelectedAt(obs, keys, rows, k);
      var firstOfK, atOfK := RenderedOnce(rows, n);
      SameSpan(rows, first, firstOfK, at, atOfK, key.id);
      StartsRise(rows, firstOfK, n);
    }
  }

  /** On every reachable state every stored observation of a trace is on its page: its id has exactly one row,
      and that row shows the earliest-started stored observation of the trace with that id. */
  lemma NothingIsHidden(history: seq<Request>, p: Id, trace: Id, key: ObsKey) returns (shown: ObsKey, at: nat)
    requires RowKey(p, trace) in Run(history).traces && key in ObservationsOf(Run(history), p, trace)
    ensures WellKeyed(Run(history))
    ensures shown in Run(history).observations && shown.id == key.id
    ensures Earliest(ObservationsOf(Run(history), p, trace), shown)
    ensures OnlyRow(Rendered(GetTrace(Run(history), p, trace).observations), key.id,
                    SpanOf(Run(history).observations[shown]), at)
    ensures var (o, span) := (Run(history).observations[shown],
                              Rendered(GetTrace(Run(history), p, trace).observations)[at].span);
            span.id == o.id && span.parent == o.detail.parent && span.startedAt == o.startedAt && span.body == o.detail.body
  {
    var t := Run(history);
    ReachableReadsAgree(history, p, [Listed(trace, t.traces[RowKey(p, trace)])], 0);
    shown, at := EarliestIsShown(t.observations, ObservationsOf(t, p, trace), GetTrace(t, p, trace).observations, key);
  }
}
