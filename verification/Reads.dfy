/** routers/traces.py: the bounded aggregate of a page, the bounded detail scan, and what they agree on. */
module Reads {
  import opened Types
  import opened Batches
  import opened Writes
  import opened Windows
  import opened Ordering
  import opened Tenancy

  /** One trace of a page as it is selected. */
  datatype Listed = Listed(id: Id, row: TraceRow)

  // ---------------------------------------------------------------- sums

  datatype Column = Prompt | Completion | Total | CostUnits | Latency

  /** A NULL contributes zero. */
  function Val(r: ObsRow, c: Column): int {
    match c
    case Prompt => r.detail.promptTokens.GetOr(0)
    case Completion => r.detail.completionTokens.GetOr(0)
    case Total => r.TotalTokens()
    case CostUnits => r.cost.GetOr(0)
    case Latency => r.latencyMs.GetOr(0)
  }

  ghost function Pick<T>(s: set<T>): (x: T)
    requires s != {}
    ensures x in s
  {
    var x :| x in s;
    x
  }

  ghost function Sum(obs: map<ObsKey, ObsRow>, keys: set<ObsKey>, c: Column): int
    requires keys <= obs.Keys
    decreases keys
  {
    if keys == {} then 0
    else
      var k := Pick(keys);
      Val(obs[k], c) + Sum(obs, keys - {k}, c)
  }

  lemma {:induction false} SumWithout(obs: map<ObsKey, ObsRow>, keys: set<ObsKey>, c: Column, k: ObsKey)
    requires keys <= obs.Keys && k in keys
    ensures Sum(obs, keys, c) == Val(obs[k], c) + Sum(obs, keys - {k}, c)
    decreases keys
  {
    var p := Pick(keys);
    if p != k {
      SumWithout(obs, keys - {p}, c, k);
      SumWithout(obs, keys - {k}, c, p);
      assert keys - {p} - {k} == keys - {k} - {p};
    }
  }

  /** The sum over rows already in hand, in the order they came. */
  function SumRows(rows: seq<ObsRow>, c: Column): int {
    if rows == [] then 0 else Val(rows[0], c) + SumRows(rows[1..], c)
  }

  datatype Totals = Totals(count: nat, prompt: int, completion: int, total: int, cost: int, latency: int)

  const ZEROS := Totals(0, 0, 0, 0, 0, 0)

  ghost function TotalsOver(obs: map<ObsKey, ObsRow>, keys: set<ObsKey>): Totals
    requires keys <= obs.Keys
  {
    Totals(|keys|, Sum(obs, keys, Prompt), Sum(obs, keys, Completion), Sum(obs, keys, Total),
           Sum(obs, keys, CostUnits), Sum(obs, keys, Latency))
  }

  // ---------------------------------------------------------------- the window of a page

  function LeastLow(page: seq<Listed>): Option<Time> {
    if page == [] then None else Least(LeastLow(page[..|page| - 1]), page[|page| - 1].row.obsMin)
  }

  function GreatestHigh(page: seq<Listed>): Option<Time> {
    if page == [] then None else Greatest(GreatestHigh(page[..|page| - 1]), page[|page| - 1].row.obsMax)
  }

  /** The span around every window of the page, or None when there is none and the query is skipped. */
  function ObservationWindow(page: seq<Listed>): Option<Window> {
    var lo, hi := LeastLow(page), GreatestHigh(page);
    if lo.None? || hi.None? then None else Some(Window(lo.value, hi.value))
  }

  // ---------------------------------------------------------------- the two scans

  /** Every observation of a trace a session bound to p can see. */
  ghost function ObservationsOf(t: Tables, p: Id, trace: Id): set<ObsKey> {
    set key | key in t.observations && key.project == p && t.observations[key].traceId == trace
  }

  /** The same, restricted to the partitions a window touches. */
  ghost function BoundedOf(t: Tables, p: Id, trace: Id, w: Window): set<ObsKey> {
    set key | key in ObservationsOf(t, p, trace) && w.lo <= t.observations[key].startedAt <= w.hi
  }

  /** One GROUP BY over the whole page: a trace without matching rows has no group. */
  ghost function AggregatesFor(t: Tables, p: Id, page: seq<Listed>): map<Id, Totals> {
    var w := ObservationWindow(page);
    if w.None? then map[]
    else
      map id | id in PageIds(page) && BoundedOf(t, p, id, w.value) != {} ::
        TotalsOver(t.observations, BoundedOf(t, p, id, w.value))
  }

  function PageIds(page: seq<Listed>): set<Id> {
    set i | 0 <= i < |page| :: page[i].id
  }

  /** The totals a list row shows: zeros when it has no group. */
  ghost function ListTotals(t: Tables, p: Id, page: seq<Listed>, id: Id): Totals {
    Lookup(AggregatesFor(t, p, page), id).GetOr(ZEROS)
  }

  function RankOf(key: ObsKey): Rank {
    (key.startedAt, key.id)
  }

  /** ORDER BY started_at, id: strictly, since the two are the key within a project. */
  predicate InOrder(rows: seq<ObsRow>) {
    forall i, j :: 0 <= i < j < |rows| ==> Below(RankOf(rows[i].Key()), RankOf(rows[j].Key()))
  }

  /** rows are the rows under keys, each once, in order. */
  ghost predicate Selects(obs: map<ObsKey, ObsRow>, keys: set<ObsKey>, rows: seq<ObsRow>) {
    && InOrder(rows)
    && (forall i :: 0 <= i < |rows| ==> rows[i].Key() in keys && Lookup(obs, rows[i].Key()) == Some(rows[i]))
    && (forall key :: key in keys ==> exists i :: 0 <= i < |rows| && rows[i].Key() == key)
  }

  ghost function Ranks(keys: set<ObsKey>): set<Rank> {
    set key | key in keys :: RankOf(key)
  }

  ghost function RowWithRank(obs: map<ObsKey, ObsRow>, keys: set<ObsKey>, rank: Rank): (r: ObsRow)
    requires keys <= obs.Keys && rank in Ranks(keys)
    ensures exists key :: key in keys && RankOf(key) == rank && r == obs[key]
  {
    var key :| key in keys && RankOf(key) == rank;
    obs[key]
  }

  ghost function OrderedRows(obs: map<ObsKey, ObsRow>, keys: set<ObsKey>, p: Id): (rows: seq<ObsRow>)
    requires keys <= obs.Keys && forall key :: key in keys ==> key.project == p && obs[key].Key() == key
    ensures Selects(obs, keys, rows)
  {
    var listing := Ascending(Ranks(keys));
    assert forall i :: 0 <= i < |listing| ==> listing[i] in Ranks(keys);
    var rows := seq(|listing|, i requires 0 <= i < |listing| && listing[i] in Ranks(keys) => RowWithRank(obs, keys, listing[i]));
    OrderedRowsSelect(obs, keys, p, listing, rows);
    rows
  }

  lemma OrderedRowsSelect(obs: map<ObsKey, ObsRow>, keys: set<ObsKey>, p: Id, listing: seq<Rank>, rows: seq<ObsRow>)
    requires keys <= obs.Keys && forall key :: key in keys ==> key.project == p && obs[key].Key() == key
    requires Lists(listing, Ranks(keys)) && |rows| == |listing|
    requires forall i :: 0 <= i < |rows| ==> listing[i] in Ranks(keys) && rows[i] == RowWithRank(obs, keys, listing[i])
    ensures Selects(obs, keys, rows)
  {
    forall i | 0 <= i < |rows| ensures RankOf(rows[i].Key()) == listing[i] && rows[i].Key() in keys && obs[rows[i].Key()] == rows[i] {
      var key :| key in keys && RankOf(key) == listing[i] && rows[i] == obs[key];
    }
    forall key | key in keys ensures exists i :: 0 <= i < |rows| && rows[i].Key() == key {
      assert RankOf(key) in listing;
      var i :| 0 <= i < |listing| && listing[i] == RankOf(key);
      assert rows[i].Key() in keys;
    }
  }

  // ---------------------------------------------------------------- detail

  datatype Detailed = NotFound | Detailed(row: TraceRow, observations: seq<ObsRow>, totals: Totals, scores: set<RowKey>)

  ghost predicate WellKeyed(t: Tables) {
    forall key :: key in t.observations ==> t.observations[key].Key() == key
  }

  ghost function DetailRows(t: Tables, p: Id, trace: Id, row: TraceRow): seq<ObsRow>
    requires WellKeyed(t)
  {
    var w := ObservationWindow([Listed(trace, row)]);
    if w.None? then [] else OrderedRows(t.observations, BoundedOf(t, p, trace, w.value), p)
  }

  function SumAll(rows: seq<ObsRow>): Totals {
    if rows == [] then ZEROS
    else Totals(|rows|, SumRows(rows, Prompt), SumRows(rows, Completion), SumRows(rows, Total),
                SumRows(rows, CostUnits), SumRows(rows, Latency))
  }

  /** Scores that name the trace, or one of the observations shown. */
  ghost function ScoresFor(t: Tables, p: Id, trace: Id, ids: set<Id>): set<RowKey> {
    set key | key in t.scores && key.project == p
              && (t.scores[key].traceId == Some(trace)
                  || (t.scores[key].observationId.Some? && t.scores[key].observationId.value in ids))
  }

  function IdsOf(rows: seq<ObsRow>): set<Id> {
    set i | 0 <= i < |rows| :: rows[i].id
  }

  ghost function GetTrace(t: Tables, p: Id, trace: Id): Detailed
    requires WellKeyed(t)
  {
    var k := RowKey(p, trace);
    if k !in t.traces then NotFound
    else
      var rows := DetailRows(t, p, trace, t.traces[k]);
      Detailed(t.traces[k], rows, SumAll(rows), ScoresFor(t, p, trace, IdsOf(rows)))
  }

  // ---------------------------------------------------------------- bounded equals unbounded

  lemma {:induction false} PageCoversRow(page: seq<Listed>, i: nat)
    requires i < |page| && page[i].row.obsMin.Some? && page[i].row.obsMax.Some?
    ensures ObservationWindow(page).Some?
    ensures ObservationWindow(page).value.lo <= page[i].row.obsMin.value
    ensures page[i].row.obsMax.value <= ObservationWindow(page).value.hi
    decreases |page|
  {
    if i < |page| - 1 {
      PageCoversRow(page[..|page| - 1], i);
    }
  }

  /** The rows of a page are stored rows of the project. */
  ghost predicate IsPage(t: Tables, p: Id, page: seq<Listed>) {
    forall i :: 0 <= i < |page| ==> Lookup(t.traces, RowKey(p, page[i].id)) == Some(page[i].row)
  }

  /** Bounding the scan by any page that shows the trace loses none of its observations. */
  lemma BoundLosesNothing(t: Tables, p: Id, page: seq<Listed>, i: nat)
    requires Covered(t) && IsPage(t, p, page) && i < |page|
    ensures match ObservationWindow(page)
            case None => ObservationsOf(t, p, page[i].id) == {}
            case Some(w) => BoundedOf(t, p, page[i].id, w) == ObservationsOf(t, p, page[i].id)
  {
    var id := page[i].id;
    forall key | key in ObservationsOf(t, p, id)
      ensures ObservationWindow(page).Some? && key in BoundedOf(t, p, id, ObservationWindow(page).value)
    {
      assert CoveredAt(t, key);
      assert Lookup(t.traces, RowKey(p, id)) == Some(page[i].row);
      PageCoversRow(page, i);
    }
  }

  lemma {:induction false} SumOfSelected(obs: map<ObsKey, ObsRow>, keys: set<ObsKey>, rows: seq<ObsRow>, c: Column)
    requires keys <= obs.Keys && Selects(obs, keys, rows)
    ensures SumRows(rows, c) == Sum(obs, keys, c) && |rows| == |keys|
    decreases |rows|
  {
    if rows == [] {
      assert keys == {} by {
        assert forall key :: key !in keys;
      }
    } else {
      var k := rows[0].Key();
      SelectsTail(obs, keys, rows);
      SumOfSelected(obs, keys - {k}, rows[1..], c);
      SumWithout(obs, keys, c, k);
    }
  }

  lemma SelectsTail(obs: map<ObsKey, ObsRow>, keys: set<ObsKey>, rows: seq<ObsRow>)
    requires Selects(obs, keys, rows) && rows != []
    ensures rows[0].Key() in keys && Selects(obs, keys - {rows[0].Key()}, rows[1..])
  {
    var k, tail := rows[0].Key(), rows[1..];
    forall i | 0 <= i < |tail| ensures tail[i].Key() in keys - {k} && Lookup(obs, tail[i].Key()) == Some(tail[i]) {
      assert tail[i] == rows[i + 1] && Below(RankOf(rows[0].Key()), RankOf(rows[i + 1].Key()));
    }
    forall key | key in keys - {k} ensures exists i :: 0 <= i < |tail| && tail[i].Key() == key {
      var i :| 0 <= i < |rows| && rows[i].Key() == key;
      assert tail[i - 1].Key() == key;
    }
  }

  /** The bounded detail view is the unbounded one: all observations in order, all scores, exact totals. */
  lemma DetailIsComplete(t: Tables, p: Id, trace: Id)
    requires Covered(t) && WellKeyed(t) && RowKey(p, trace) in t.traces
    ensures var d := GetTrace(t, p, trace);
            && Selects(t.observations, ObservationsOf(t, p, trace), d.observations)
            && d.totals == TotalsOver(t.observations, ObservationsOf(t, p, trace))
            && d.scores == ScoresFor(t, p, trace, set key | key in ObservationsOf(t, p, trace) :: key.id)
  {
    var d := GetTrace(t, p, trace);
    var keys := ObservationsOf(t, p, trace);
    BoundLosesNothing(t, p, [Listed(trace, d.row)], 0);
    SumOfSelected(t.observations, keys, d.observations, Prompt);
    SumOfSelected(t.observations, keys, d.observations, Completion);
    SumOfSelected(t.observations, keys, d.observations, Total);
    SumOfSelected(t.observations, keys, d.observations, CostUnits);
    SumOfSelected(t.observations, keys, d.observations, Latency);
    SelectedIds(t.observations, keys, d.observations);
  }

  lemma SelectedIds(obs: map<ObsKey, ObsRow>, keys: set<ObsKey>, rows: seq<ObsRow>)
    requires Selects(obs, keys, rows)
    ensures IdsOf(rows) == set key | key in keys :: key.id
  {
    forall id ensures id in IdsOf(rows) <==> exists key :: key in keys && key.id == id {
      if id in IdsOf(rows) {
        var i :| 0 <= i < |rows| && rows[i].id == id;
        assert rows[i].Key() in keys;
      }
      if key :| key in keys && key.id == id {
        var i :| 0 <= i < |rows| && rows[i].Key() == key;
        assert rows[i].id == id;
      }
    }
  }

  /** The list row and the detail view of a trace show the same totals, those of an unbounded scan. */
  lemma ListAndDetailAgree(t: Tables, p: Id, page: seq<Listed>, i: nat)
    requires Covered(t) && WellKeyed(t) && IsPage(t, p, page) && i < |page|
    ensures ListTotals(t, p, page, page[i].id) == GetTrace(t, p, page[i].id).totals
    ensures ListTotals(t, p, page, page[i].id) == TotalsOver(t.observations, ObservationsOf(t, p, page[i].id))
  {
    var id := page[i].id;
    assert Lookup(t.traces, RowKey(p, id)) == Some(page[i].row);
    BoundLosesNothing(t, p, page, i);
    DetailIsComplete(t, p, id);
    assert id in PageIds(page);
  }

  /** On every reachable state, whatever was sent and however it was split. */
  lemma ReachableReadsAgree(history: seq<Request>, p: Id, page: seq<Listed>, i: nat)
    requires IsPage(Run(history), p, page) && i < |page|
    ensures WellKeyed(Run(history))
    ensures ListTotals(Run(history), p, page, page[i].id) == GetTrace(Run(history), p, page[i].id).totals
    ensures ListTotals(Run(history), p, page, page[i].id)
         == TotalsOver(Run(history).observations, ObservationsOf(Run(history), p, page[i].id))
    ensures Selects(Run(history).observations, ObservationsOf(Run(history), p, page[i].id),
                    GetTrace(Run(history), p, page[i].id).observations)
  {
    ReachableIsCovered(history);
    ReachableIsKeyed(history);
    ListAndDetailAgree(Run(history), p, page, i);
    assert Lookup(Run(history).traces, RowKey(p, page[i].id)) == Some(page[i].row);
    DetailIsComplete(Run(history), p, page[i].id);
  }

  // ---------------------------------------------------------------- reads see one tenant

  lemma {:induction false} SumOfSame(a: map<ObsKey, ObsRow>, b: map<ObsKey, ObsRow>, keys: set<ObsKey>, c: Column)
    requires keys <= a.Keys && keys <= b.Keys && forall k :: k in keys ==> a[k] == b[k]
    ensures Sum(a, keys, c) == Sum(b, keys, c)
    decreases keys
  {
    if keys != {} {
      SumOfSame(a, b, keys - {Pick(keys)}, c);
    }
  }

  lemma TotalsOfSame(a: map<ObsKey, ObsRow>, b: map<ObsKey, ObsRow>, keys: set<ObsKey>)
    requires keys <= a.Keys && keys <= b.Keys && forall k :: k in keys ==> a[k] == b[k]
    ensures TotalsOver(a, keys) == TotalsOver(b, keys)
  {
    SumOfSame(a, b, keys, Prompt);
    SumOfSame(a, b, keys, Completion);
    SumOfSame(a, b, keys, Total);
    SumOfSame(a, b, keys, CostUnits);
    SumOfSame(a, b, keys, Latency);
  }

  /** What a session bound to p reads depends on p's slice alone. */
  lemma ReadsSeeOnlyTheSlice(t: Tables, p: Id, page: seq<Listed>, id: Id)
    ensures ListTotals(t, p, page, id) == ListTotals(Slice(t, p), p, page, id)
  {
    var s := Slice(t, p);
    assert ObservationsOf(s, p, id) == ObservationsOf(t, p, id);
    var w := ObservationWindow(page);
    if w.Some? {
      assert BoundedOf(s, p, id, w.value) == BoundedOf(t, p, id, w.value);
      TotalsOfSame(s.observations, t.observations, BoundedOf(t, p, id, w.value));
    }
  }

  lemma {:induction false} OneSelection(obs: map<ObsKey, ObsRow>, keys: set<ObsKey>, a: seq<ObsRow>, b: seq<ObsRow>)
    requires keys <= obs.Keys && Selects(obs, keys, a) && Selects(obs, keys, b)
    ensures a == b
    decreases |a|
  {
    SumOfSelected(obs, keys, a, Prompt);
    SumOfSelected(obs, keys, b, Prompt);
    if a != [] {
      FirstSelected(obs, keys, a, b);
      SelectsTail(obs, keys, a);
      SelectsTail(obs, keys, b);
      OneSelection(obs, keys - {a[0].Key()}, a[1..], b[1..]);
    }
  }

  lemma FirstIsLeast(rows: seq<ObsRow>, i: nat)
    requires InOrder(rows) && i < |rows|
    ensures rows[i].Key() == rows[0].Key() || Below(RankOf(rows[0].Key()), RankOf(rows[i].Key()))
  {
  }

  lemma FirstSelected(obs: map<ObsKey, ObsRow>, keys: set<ObsKey>, a: seq<ObsRow>, b: seq<ObsRow>)
    requires Selects(obs, keys, a) && Selects(obs, keys, b) && a != [] && b != []
    ensures a[0] == b[0]
  {
    var i :| 0 <= i < |b| && b[i].Key() == a[0].Key();
    var j :| 0 <= j < |a| && a[j].Key() == b[0].Key();
    FirstIsLeast(b, i);
    FirstIsLeast(a, j);
    assert Lookup(obs, a[0].Key()) == Some(a[0]) && Lookup(obs, b[0].Key()) == Some(b[0]);
  }

  lemma OrderedFromSlice(t: Tables, p: Id, keys: set<ObsKey>)
    requires WellKeyed(t) && WellKeyed(Slice(t, p)) && keys <= Slice(t, p).observations.Keys
    ensures keys <= t.observations.Keys && forall key :: key in keys ==> key.project == p
    ensures OrderedRows(t.observations, keys, p) == OrderedRows(Slice(t, p).observations, keys, p)
  {
    var obs := Slice(t, p).observations;
    assert forall key :: key in keys ==> key in obs && key in t.observations && key.project == p;
    SelectedFromSlice(t, p, keys, OrderedRows(obs, keys, p));
    OneSelection(t.observations, keys, OrderedRows(t.observations, keys, p), OrderedRows(obs, keys, p));
  }

  lemma SliceRows(t: Tables, p: Id, trace: Id, row: TraceRow)
    requires WellKeyed(t) && WellKeyed(Slice(t, p))
    ensures DetailRows(t, p, trace, row) == DetailRows(Slice(t, p), p, trace, row)
  {
    var s, w := Slice(t, p), ObservationWindow([Listed(trace, row)]);
    assert ObservationsOf(s, p, trace) == ObservationsOf(t, p, trace);
    if w.Some? {
      var keys := BoundedOf(t, p, trace, w.value);
      assert BoundedOf(s, p, trace, w.value) == keys;
      OrderedFromSlice(t, p, keys);
    }
  }

  lemma SelectedFromSlice(t: Tables, p: Id, keys: set<ObsKey>, rows: seq<ObsRow>)
    requires Selects(Slice(t, p).observations, keys, rows)
    ensures Selects(t.observations, keys, rows)
  {
    var obs := Slice(t, p).observations;
    forall i | 0 <= i < |rows| ensures Lookup(t.observations, rows[i].Key()) == Some(rows[i]) {
      assert Lookup(obs, rows[i].Key()) == Some(rows[i]);
    }
  }

  lemma DetailSeesOnlyTheSlice(t: Tables, p: Id, trace: Id)
    requires WellKeyed(t)
    ensures WellKeyed(Slice(t, p)) && GetTrace(t, p, trace) == GetTrace(Slice(t, p), p, trace)
  {
    var s, k := Slice(t, p), RowKey(p, trace);
    assert WellKeyed(s);
    if k in t.traces {
      SliceRows(t, p, trace, t.traces[k]);
      var ids := IdsOf(DetailRows(t, p, trace, t.traces[k]));
      assert ScoresFor(t, p, trace, ids) == ScoresFor(s, p, trace, ids);
    }
  }

  /** Every read of a project is the read of the run with the other projects' requests removed. */
  lemma TenantReadsAreIsolated(history: seq<Request>, p: Id, page: seq<Listed>, id: Id)
    ensures WellKeyed(Run(history)) && WellKeyed(Run(Mine(history, p)))
    ensures ListTotals(Run(history), p, page, id) == ListTotals(Run(Mine(history, p)), p, page, id)
    ensures GetTrace(Run(history), p, id) == GetTrace(Run(Mine(history, p)), p, id)
  {
    ReachableIsKeyed(history);
    ReachableIsKeyed(Mine(history, p));
    TenantsAreIsolated(history, p);
    ReadsSeeOnlyTheSlice(Run(history), p, page, id);
    ReadsSeeOnlyTheSlice(Run(Mine(history, p)), p, page, id);
    DetailSeesOnlyTheSlice(Run(history), p, id);
    DetailSeesOnlyTheSlice(Run(Mine(history, p)), p, id);
  }

  lemma ReachableIsKeyed(history: seq<Request>)
    ensures WellKeyed(Run(history))
  {
    ReachableIsCovered(history);
    forall key | key in Run(history).observations ensures Run(history).observations[key].Key() == key {
      assert CoveredAt(Run(history), key);
    }
  }
}
