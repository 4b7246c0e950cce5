/** The cost column over a whole run: frozen at write time, and summed without drifting. */
module Spend {
  import opened Types
  import opened Batches
  import opened Pricing
  import opened Costs
  import opened Writes
  import opened History
  import opened Windows
  import opened Reads
  import Tenancy

  /** The row carries the cost the given book sets for its own model and counts. */
  ghost predicate PricedBy(r: ObsRow, book: Book) {
    r.cost == Cost(book, r.detail.model, r.detail.promptTokens, r.detail.completionTokens, r.detail.cachedTokens)
  }

  lemma {:induction false} RowsArePriced(pairs: seq<Pair>, req: Request, r: ObsRow)
    requires r in AcceptedRows(pairs, req.project, req.now, req.book)
    ensures PricedBy(r, req.book)
    decreases |pairs|
  {
    if r in AcceptedRows(pairs[..|pairs| - 1], req.project, req.now, req.book) {
      RowsArePriced(pairs[..|pairs| - 1], req, r);
    }
  }

  /** This served request proposed the row, and its pricebook set the row's cost. */
  ghost predicate PricedAt(history: seq<Request>, r: ObsRow, i: int) {
    0 <= i < |history| && r in RowsBy(history[i]) && PricedBy(r, history[i].book)
  }

  lemma StoredIsPriced(history: seq<Request>, key: ObsKey)
    requires key in Run(history).observations
    ensures exists i :: PricedAt(history, Run(history).observations[key], i)
  {
    var n := StoredWasSent(history, key);
    var r := AllRows(history)[n];
    SentByOne(history);
    assert r in AllRows(history);
    var i :| 0 <= i < |history| && r in RowsBy(history[i]);
    RowsArePriced(Pairs(history[i].batch), history[i], r);
    assert PricedAt(history, r, i);
  }

  /** A stored cost is the one computed by a request that sent the row, under the pricebook of that moment; no
      later request moves it. */
  lemma CostIsFrozen(history: seq<Request>, later: seq<Request>, key: ObsKey)
    requires key in Run(history).observations
    ensures exists i :: PricedAt(history, Run(history).observations[key], i)
    ensures Lookup(RunFrom(Run(history), later).observations, key) == Some(Run(history).observations[key])
  {
    StoredIsPriced(history, key);
    StoredRows(Run(history), later);
    Tenancy.InsertAt(Run(history).observations, AllRows(later), key);
  }

  /** The pricebook a stored row was priced under. */
  ghost function BookOf(history: seq<Request>, key: ObsKey): (book: Book)
    requires key in Run(history).observations
    ensures exists i :: PricedAt(history, Run(history).observations[key], i) && book == history[i].book
  {
    StoredIsPriced(history, key);
    var i :| PricedAt(history, Run(history).observations[key], i);
    history[i].book
  }

  /** Each row's own pricebook. */
  ghost function BooksOf(history: seq<Request>, keys: set<ObsKey>): map<ObsKey, Book>
    requires keys <= Run(history).observations.Keys
  {
    map key | key in keys :: BookOf(history, key)
  }

  /** The exact cost of a priced row in nano-USD; an unpriced row contributes nothing. */
  ghost function ExactNanos(r: ObsRow, book: Book): int {
    var price, d := Price(book, r.detail.model), r.detail;
    if r.cost.None? || price.None? then 0
    else Nanos(price.value, d.promptTokens.GetOr(0), d.completionTokens.GetOr(0), d.cachedTokens.GetOr(0))
  }

  /** The exact total of some rows, each at the prices it was stored under. */
  ghost function SumNanos(obs: map<ObsKey, ObsRow>, keys: set<ObsKey>, books: map<ObsKey, Book>): int
    requires keys <= obs.Keys && keys <= books.Keys
    decreases keys
  {
    if keys == {} then 0
    else
      var k := Pick(keys);
      ExactNanos(obs[k], books[k]) + SumNanos(obs, keys - {k}, books)
  }

  ghost function PricedCount(obs: map<ObsKey, ObsRow>, keys: set<ObsKey>): nat
    requires keys <= obs.Keys
    decreases keys
  {
    if keys == {} then 0
    else
      var k := Pick(keys);
      (if obs[k].cost.Some? then 1 else 0) + PricedCount(obs, keys - {k})
  }

  /** Summing n stored costs is within n halves of a unit of the exact total, whatever book priced each of them. */
  lemma {:induction false} SumIsExactToHalves(obs: map<ObsKey, ObsRow>, keys: set<ObsKey>, books: map<ObsKey, Book>)
    requires keys <= obs.Keys && keys <= books.Keys && forall k :: k in keys ==> PricedBy(obs[k], books[k])
    ensures var n := PricedCount(obs, keys);
            -5 * n <= NANOS_PER_UNIT * Sum(obs, keys, CostUnits) - SumNanos(obs, keys, books) <= 5 * n
    decreases keys
  {
    if keys != {} {
      var k := Pick(keys);
      SumIsExactToHalves(obs, keys - {k}, books);
      var d := obs[k].detail;
      CostIsExactToHalfAUnit(books[k], d.model, d.promptTokens, d.completionTokens, d.cachedTokens);
    }
  }

  /** A total in units of 1e-8 USD is within n halves of a unit of the exact cost of a trace's n priced rows. */
  ghost predicate IsFaithfulTotal(history: seq<Request>, p: Id, trace: Id, total: int) {
    var obs, keys := Run(history).observations, ObservationsOf(Run(history), p, trace);
    var n, exact := PricedCount(obs, keys), SumNanos(obs, keys, BooksOf(history, keys));
    -5 * n <= NANOS_PER_UNIT * total - exact <= 5 * n
  }

  /** The total cost a trace shows, in list and in detail, against the exact cost of its observations, however
      often prices changed between them. */
  lemma TraceTotalIsExactToHalves(history: seq<Request>, p: Id, page: seq<Listed>, i: nat)
    requires IsPage(Run(history), p, page) && i < |page|
    ensures WellKeyed(Run(history))
    ensures IsFaithfulTotal(history, p, page[i].id, ListTotals(Run(history), p, page, page[i].id).cost)
    ensures IsFaithfulTotal(history, p, page[i].id, GetTrace(Run(history), p, page[i].id).totals.cost)
  {
    var obs, keys := Run(history).observations, ObservationsOf(Run(history), p, page[i].id);
    ReachableReadsAgree(history, p, page, i);
    SumIsExactToHalves(obs, keys, BooksOf(history, keys));
  }
}
