/** What one stored observation adds to the totals a trace shows, column by column. */
module Tallies {
  import opened Types
  import opened Batches
  import opened Writes
  import opened Windows
  import opened Ordering
  import opened Reads

  function OrZero(n: Option<int>): int {
    if n == None then 0 else n.value
  }

  /** after is before with one more observation: each figure grows by that observation's own column. */
  predicate Adds(before: Totals, after: Totals, r: ObsRow) {
    && after.count == before.count + 1
    && after.prompt == before.prompt + OrZero(r.detail.promptTokens)
    && after.completion == before.completion + OrZero(r.detail.completionTokens)
    && after.total == before.total + OrZero(r.detail.promptTokens) + OrZero(r.detail.completionTokens)
    && after.cost == before.cost + OrZero(r.cost)
    && after.latency == before.latency + OrZero(r.latencyMs)
  }

  /** u stores one observation more than t, under a key t does not have. */
  ghost predicate OneMore(t: Tables, u: Tables, r: ObsRow) {
    r.Key() !in t.observations && u.observations == t.observations[r.Key() := r]
  }

  lemma SumOfOneMore(t: Tables, u: Tables, r: ObsRow, c: Column)
    requires OneMore(t, u, r)
    ensures Sum(u.observations, ObservationsOf(u, r.project, r.traceId), c)
         == Sum(t.observations, ObservationsOf(t, r.project, r.traceId), c) + Val(r, c)
    ensures ObservationsOf(u, r.project, r.traceId) == ObservationsOf(t, r.project, r.traceId) + {r.Key()}
  {
    var keys, more := ObservationsOf(t, r.project, r.traceId), ObservationsOf(u, r.project, r.traceId);
    assert more == keys + {r.Key()} && more - {r.Key()} == keys;
    SumWithout(u.observations, more, c, r.Key());
    SumOfSame(t.observations, u.observations, keys, c);
  }

  lemma TotalsOfOneMore(t: Tables, u: Tables, r: ObsRow)
    requires OneMore(t, u, r)
    ensures Adds(TotalsOver(t.observations, ObservationsOf(t, r.project, r.traceId)),
                 TotalsOver(u.observations, ObservationsOf(u, r.project, r.traceId)), r)
  {
    SumOfOneMore(t, u, r, Prompt);
    SumOfOneMore(t, u, r, Completion);
    SumOfOneMore(t, u, r, Total);
    SumOfOneMore(t, u, r, CostUnits);
    SumOfOneMore(t, u, r, Latency);
  }

  /** On the page of its trace, and in the trace's detail, one further observation adds its own columns. */
  lemma ObservationAddsItsColumns(t: Tables, u: Tables, r: ObsRow, page: seq<Listed>, i: nat, later: seq<Listed>, j: nat)
    requires OneMore(t, u, r) && Covered(t) && WellKeyed(t) && Covered(u) && WellKeyed(u)
    requires IsPage(t, r.project, page) && i < |page| && page[i].id == r.traceId
    requires IsPage(u, r.project, later) && j < |later| && later[j].id == r.traceId
    ensures Adds(ListTotals(t, r.project, page, r.traceId), ListTotals(u, r.project, later, r.traceId), r)
    ensures Adds(GetTrace(t, r.project, r.traceId).totals, GetTrace(u, r.project, r.traceId).totals, r)
  {
    TotalsOfOneMore(t, u, r);
    ListAndDetailAgree(t, r.project, page, i);
    ListAndDetailAgree(u, r.project, later, j);
  }

  lemma OthersUntouched(t: Tables, u: Tables, r: ObsRow, p: Id, id: Id)
    requires OneMore(t, u, r) && (p != r.project || id != r.traceId)
    ensures TotalsOver(u.observations, ObservationsOf(u, p, id)) == TotalsOver(t.observations, ObservationsOf(t, p, id))
  {
    assert ObservationsOf(u, p, id) == ObservationsOf(t, p, id);
    TotalsOfSame(t.observations, u.observations, ObservationsOf(t, p, id));
  }

  /** To every other trace it adds nothing. */
  lemma OtherTracesKeepTheirTotals(t: Tables, u: Tables, r: ObsRow, p: Id, page: seq<Listed>, i: nat,
                                   later: seq<Listed>, j: nat)
    requires OneMore(t, u, r) && Covered(t) && WellKeyed(t) && Covered(u) && WellKeyed(u)
    requires IsPage(t, p, page) && i < |page| && IsPage(u, p, later) && j < |later| && page[i].id == later[j].id
    requires p != r.project || page[i].id != r.traceId
    ensures ListTotals(t, p, page, page[i].id) == ListTotals(u, p, later, page[i].id)
    ensures GetTrace(t, p, page[i].id).totals == GetTrace(u, p, page[i].id).totals
  {
    ListAndDetailAgree(t, p, page, i);
    ListAndDetailAgree(u, p, later, j);
    OthersUntouched(t, u, r, p, page[i].id);
  }

  /** A trace without observations shows zeros. */
  lemma NothingStoredShowsZeros(t: Tables, p: Id, page: seq<Listed>, i: nat)
    requires Covered(t) && WellKeyed(t) && IsPage(t, p, page) && i < |page|
    requires forall key :: key in t.observations && key.project == p ==> t.observations[key].traceId != page[i].id
    ensures ListTotals(t, p, page, page[i].id) == Totals(0, 0, 0, 0, 0, 0)
    ensures GetTrace(t, p, page[i].id).totals == Totals(0, 0, 0, 0, 0, 0)
  {
    ListAndDetailAgree(t, p, page, i);
    assert ObservationsOf(t, p, page[i].id) == {};
  }

  /** Between any two reachable states one stored observation apart. */
  lemma ReachableTotalsAdd(g: seq<Request>, h: seq<Request>, r: ObsRow, page: seq<Listed>, i: nat, later: seq<Listed>,
                           j: nat)
    requires OneMore(Run(g), Run(h), r)
    requires IsPage(Run(g), r.project, page) && i < |page| && page[i].id == r.traceId
    requires IsPage(Run(h), r.project, later) && j < |later| && later[j].id == r.traceId
    ensures WellKeyed(Run(g)) && WellKeyed(Run(h))
    ensures Adds(ListTotals(Run(g), r.project, page, r.traceId), ListTotals(Run(h), r.project, later, r.traceId), r)
    ensures Adds(GetTrace(Run(g), r.project, r.traceId).totals, GetTrace(Run(h), r.project, r.traceId).totals, r)
  {
    ReachableIsCovered(g);
    ReachableIsKeyed(g);
    ReachableIsCovered(h);
    ReachableIsKeyed(h);
    ObservationAddsItsColumns(Run(g), Run(h), r, page, i, later, j);
  }

  /** The detail shows the scores of the project that name the trace or one of its stored observations, and no others. */
  lemma ScoresShown(t: Tables, p: Id, trace: Id, key: RowKey)
    requires Covered(t) && WellKeyed(t) && RowKey(p, trace) in t.traces
    ensures key in GetTrace(t, p, trace).scores
            <==> && key in t.scores && key.project == p
                 && (t.scores[key].traceId == Some(trace)
                     || exists o :: o in t.observations && o.project == p && t.observations[o].traceId == trace
                                    && t.scores[key].observationId == Some(o.id))
  {
    DetailIsComplete(t, p, trace);
    var keys := ObservationsOf(t, p, trace);
    assert forall o :: o in keys <==> o in t.observations && o.project == p && t.observations[o].traceId == trace;
  }

  /** A trace is found exactly when the project stores it; the detail shows its row and its observations from the
      earliest to the latest, by id within one start. */
  lemma DetailShowsTheTrace(t: Tables, p: Id, trace: Id)
    requires Covered(t) && WellKeyed(t)
    ensures var d := GetTrace(t, p, trace);
      && (d.NotFound? <==> RowKey(p, trace) !in t.traces)
      && (d.Detailed? ==> d.row == t.traces[RowKey(p, trace)] && EarliestFirst(d.observations))
  {
    if RowKey(p, trace) in t.traces {
      DetailIsComplete(t, p, trace);
      var rows := GetTrace(t, p, trace).observations;
      forall i, j | 0 <= i < j < |rows| ensures Before(rows[i], rows[j]) {
        assert Below(RankOf(rows[i].Key()), RankOf(rows[j].Key()));
      }
    }
  }

  predicate Before(r: ObsRow, s: ObsRow) {
    r.startedAt < s.startedAt || (r.startedAt == s.startedAt && r.id < s.id)
  }

  predicate EarliestFirst(rows: seq<ObsRow>) {
    forall i, j :: 0 <= i < j < |rows| ==> Before(rows[i], rows[j])
  }
}
