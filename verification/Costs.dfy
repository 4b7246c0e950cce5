/** services/pricing.py: compute_cost_usd in exact integers, and what the stored figure promises. */
module Costs {
  import opened Types
  import opened Pricing

  /** Ten nano-USD make one unit of the stored column, whose scale is 1e-8 USD. */
  const NANOS_PER_UNIT := 10

  /** Exact cost in nano-USD: a rate of one thousandth of a USD per million tokens is one nano-USD a token. */
  function Nanos(price: ModelPrice, prompt: int, completion: int, cachedTokens: int): int {
    var cached := if cachedTokens <= prompt then cachedTokens else prompt;
    (prompt - cached) * price.input + cached * price.CachedRate() + completion * price.output
  }

  /** quantize(..., ROUND_HALF_UP): to the nearest unit, ties away from zero. */
  function RoundHalfUp(nanos: int): int {
    if nanos >= 0 then (nanos + 5) / NANOS_PER_UNIT else -((5 - nanos) / NANOS_PER_UNIT)
  }

  function CostAt(price: Option<ModelPrice>, prompt: Option<int>, completion: Option<int>, cached: Option<int>)
    : Option<int>
  {
    if price.None? || (prompt.None? && completion.None?) then None
    else Some(RoundHalfUp(Nanos(price.value, prompt.GetOr(0), completion.GetOr(0), cached.GetOr(0))))
  }

  /** The cost of one observation in units of 1e-8 USD, or None when it cannot be established. */
  ghost function Cost(book: Book, model: Option<string>, prompt: Option<int>, completion: Option<int>,
                      cached: Option<int>): Option<int>
  {
    CostAt(Price(book, model), prompt, completion, cached)
  }

  method ComputeCost(prices: PriceLookup, model: Option<string>, prompt: Option<int>, completion: Option<int>,
                     cached: Option<int>) returns (cost: Option<int>)
    requires DistinctKeys(prices.book)
    modifies prices`unknownSeen
    ensures cost == Cost(prices.book, model, prompt, completion, cached)
    ensures old(prices.unknownSeen) <= prices.unknownSeen
    ensures |old(prices.unknownSeen)| <= MAX_TRACKED_UNKNOWN ==> |prices.unknownSeen| <= MAX_TRACKED_UNKNOWN
  {
    var price := prices.Lookup(model);
    if price.None? || (prompt.None? && completion.None?) {
      return None;
    }
    var nanos := Nanos(price.value, prompt.GetOr(0), completion.GetOr(0), cached.GetOr(0));
    return Some(RoundHalfUp(nanos));
  }

  // ---------------------------------------------------------------- what the figure promises

  /** Rounding lands within half a unit, and a tie goes away from zero. */
  lemma RoundingIsNearest(nanos: int)
    ensures -5 <= NANOS_PER_UNIT * RoundHalfUp(nanos) - nanos <= 5
    ensures nanos >= 0 ==> NANOS_PER_UNIT * RoundHalfUp(nanos) - nanos != -5
    ensures nanos < 0 ==> NANOS_PER_UNIT * RoundHalfUp(nanos) - nanos != 5
  {
  }

  lemma RoundingIsMonotone(m: int, n: int)
    requires m <= n
    ensures RoundHalfUp(m) <= RoundHalfUp(n)
  {
  }

  lemma ScaleLeft(a: int, b: int, c: int)
    requires a <= b && 0 <= c
    ensures a * c <= b * c
  {
  }

  /** More prompt tokens never cost less, whatever the cached subset, and neither do more completion tokens. */
  lemma NanosGrow(price: ModelPrice, prompt: nat, completion: nat, cached: nat, morePrompt: nat, moreCompletion: nat)
    requires prompt <= morePrompt && completion <= moreCompletion
    ensures 0 <= Nanos(price, prompt, completion, cached) <= Nanos(price, morePrompt, moreCompletion, cached)
  {
    ScaleLeft(completion, moreCompletion, price.output);
    ScaleLeft(0, completion, price.output);
    var c0 := if cached <= prompt then cached else prompt;
    var c1 := if cached <= morePrompt then cached else morePrompt;
    ScaleLeft(c0, c1, price.CachedRate());
    ScaleLeft(0, c0, price.CachedRate());
    ScaleLeft(prompt - c0, morePrompt - c1, price.input);
    ScaleLeft(0, prompt - c0, price.input);
  }

  lemma NanosShrink(price: ModelPrice, prompt: nat, completion: nat, cached: nat, moreCached: nat)
    requires price.CachedRate() <= price.input && cached <= moreCached
    ensures Nanos(price, prompt, completion, moreCached) <= Nanos(price, prompt, completion, cached)
    ensures prompt <= cached ==> Nanos(price, prompt, completion, moreCached) == Nanos(price, prompt, completion, cached)
  {
    var c0 := if cached <= prompt then cached else prompt;
    var c1 := if moreCached <= prompt then moreCached else prompt;
    assert (prompt - c0) * price.input == (prompt - c1) * price.input + (c1 - c0) * price.input;
    assert c1 * price.CachedRate() == c0 * price.CachedRate() + (c1 - c0) * price.CachedRate();
    Products(c1 - c0, price.CachedRate(), price.input);
  }

  lemma Products(n: int, a: int, b: int)
    requires 0 <= n && a <= b
    ensures n * a <= n * b
  {
  }

  /** The stored cost is the exact cost to within half a unit. */
  lemma CostIsExactToHalfAUnit(book: Book, model: Option<string>, prompt: Option<nat>, completion: Option<nat>,
                               cached: Option<nat>)
    ensures var price, cost := Price(book, model), Cost(book, model, prompt, completion, cached);
            cost.Some? <==> price.Some? && (prompt.Some? || completion.Some?)
    ensures var price, cost := Price(book, model), Cost(book, model, prompt, completion, cached);
            cost.Some? ==>
              && 0 <= cost.value
              && -5 < NANOS_PER_UNIT * cost.value
                      - Nanos(price.value, prompt.GetOr(0), completion.GetOr(0), cached.GetOr(0)) <= 5
  {
    var price := Price(book, model);
    if price.Some? {
      NanosGrow(price.value, prompt.GetOr(0), completion.GetOr(0), cached.GetOr(0), prompt.GetOr(0), completion.GetOr(0));
      RoundingIsNearest(Nanos(price.value, prompt.GetOr(0), completion.GetOr(0), cached.GetOr(0)));
    }
  }

  /** Cost is monotone in what was used. */
  lemma CostIsMonotone(book: Book, model: Option<string>, prompt: nat, completion: nat, cached: Option<nat>,
                       morePrompt: nat, moreCompletion: nat)
    requires Price(book, model).Some? && prompt <= morePrompt && completion <= moreCompletion
    ensures Cost(book, model, Some(prompt), Some(completion), cached).value
         <= Cost(book, model, Some(morePrompt), Some(moreCompletion), cached).value
  {
    var price := Price(book, model).value;
    NanosGrow(price, prompt, completion, cached.GetOr(0), morePrompt, moreCompletion);
    RoundingIsMonotone(Nanos(price, prompt, completion, cached.GetOr(0)),
                       Nanos(price, morePrompt, moreCompletion, cached.GetOr(0)));
  }

  /** A larger cached subset never costs more, and everything beyond the prompt is ignored. */
  lemma CostIsAntitoneInCached(book: Book, model: Option<string>, prompt: nat, completion: nat,
                               cached: nat, moreCached: nat)
    requires Price(book, model).Some? && Price(book, model).value.CachedRate() <= Price(book, model).value.input
    requires cached <= moreCached
    ensures Cost(book, model, Some(prompt), Some(completion), Some(moreCached)).value
         <= Cost(book, model, Some(prompt), Some(completion), Some(cached)).value
    ensures prompt <= cached
            ==> Cost(book, model, Some(prompt), Some(completion), Some(moreCached))
                == Cost(book, model, Some(prompt), Some(completion), Some(prompt))
  {
    var price := Price(book, model).value;
    NanosShrink(price, prompt, completion, cached, moreCached);
    RoundingIsMonotone(Nanos(price, prompt, completion, moreCached), Nanos(price, prompt, completion, cached));
    if prompt <= cached {
      NanosShrink(price, prompt, completion, prompt, moreCached);
    }
  }

  /** The stored figure for given counts under a price. */
  function Units(price: ModelPrice, prompt: nat, completion: nat, cached: nat): int {
    RoundHalfUp(Nanos(price, prompt, completion, cached))
  }

  /** Caching more of a prompt never raises the stored figure. */
  ghost predicate CachingNeverCosts(price: ModelPrice) {
    forall prompt: nat, completion: nat, cached: nat, more: nat | cached <= more ::
      Units(price, prompt, completion, more) <= Units(price, prompt, completion, cached)
  }

  /** That holds exactly for prices whose cached rate does not exceed the input rate. */
  lemma CachingNeverCostsIffDiscounted(price: ModelPrice)
    ensures CachingNeverCosts(price) <==> price.CachedRate() <= price.input
  {
    if price.CachedRate() <= price.input {
      forall prompt: nat, completion: nat, cached: nat, more: nat | cached <= more
        ensures Units(price, prompt, completion, more) <= Units(price, prompt, completion, cached)
      {
        NanosShrink(price, prompt, completion, cached, more);
        RoundingIsMonotone(Nanos(price, prompt, completion, more), Nanos(price, prompt, completion, cached));
      }
    }
    assert Units(price, 10, 0, 0) == price.input && Units(price, 10, 0, 10) == price.CachedRate();
  }

  // ---------------------------------------------------------------- the figure, by the price's own fields

  lemma RoundingShifts(nanos: int, units: int)
    requires nanos >= 0 && nanos + 10 * units >= 0
    ensures RoundHalfUp(nanos + 10 * units) == RoundHalfUp(nanos) + units
  {
  }

  /** A missing count bills as none, once the other is there. */
  lemma MissingCountsAreZero(book: Book, model: Option<string>, prompt: nat, completion: nat, cached: Option<nat>)
    ensures Cost(book, model, None, Some(completion), cached) == Cost(book, model, Some(0), Some(completion), cached)
    ensures Cost(book, model, Some(prompt), None, cached) == Cost(book, model, Some(prompt), Some(0), cached)
    ensures Cost(book, model, Some(prompt), Some(completion), None)
         == Cost(book, model, Some(prompt), Some(completion), Some(0))
  {
  }

  /** Nothing used costs nothing. */
  lemma NothingCostsNothing(book: Book, model: Option<string>, price: ModelPrice, cached: Option<nat>)
    requires Price(book, model) == Some(price)
    ensures Cost(book, model, Some(0), Some(0), cached) == Some(0)
  {
  }

  lemma Distribute(a: int, b: int, c: int)
    ensures (a + b) * c == a * c + b * c
  {
  }

  /** Figures ten units of a rate apart, before rounding, are that rate apart after it. */
  lemma CostsApart(book: Book, model: Option<string>, price: ModelPrice, prompt: nat, completion: nat, cached: nat,
                   prompt': nat, completion': nat, cached': nat, units: int)
    requires Price(book, model) == Some(price)
    requires Nanos(price, prompt', completion', cached') == Nanos(price, prompt, completion, cached) + 10 * units
    ensures Cost(book, model, Some(prompt'), Some(completion'), Some(cached')).value
         == Cost(book, model, Some(prompt), Some(completion), Some(cached)).value + units
  {
    NanosGrow(price, prompt, completion, cached, prompt, completion);
    NanosGrow(price, prompt', completion', cached', prompt', completion');
    RoundingShifts(Nanos(price, prompt, completion, cached), units);
  }

  /** Ten more completion tokens add the output rate. */
  lemma TenMoreCompletions(book: Book, model: Option<string>, price: ModelPrice, prompt: nat, completion: nat, cached: nat)
    requires Price(book, model) == Some(price)
    ensures Cost(book, model, Some(prompt), Some(completion + 10), Some(cached)).value
         == Cost(book, model, Some(prompt), Some(completion), Some(cached)).value + price.output
  {
    Distribute(completion, 10, price.output);
    CostsApart(book, model, price, prompt, completion, cached, prompt, completion + 10, cached, price.output);
  }

  /** Ten more fresh prompt tokens add the input rate. */
  lemma TenMoreFreshPrompts(book: Book, model: Option<string>, price: ModelPrice, prompt: nat, completion: nat, cached: nat)
    requires Price(book, model) == Some(price) && cached <= prompt
    ensures Cost(book, model, Some(prompt + 10), Some(completion), Some(cached)).value
         == Cost(book, model, Some(prompt), Some(completion), Some(cached)).value + price.input
  {
    Distribute(prompt - cached, 10, price.input);
    CostsApart(book, model, price, prompt, completion, cached, prompt + 10, completion, cached, price.input);
  }

  /** Ten prompt tokens found in the cache move from the input rate to the cached one, where that is listed. */
  lemma TenMoreCached(book: Book, model: Option<string>, price: ModelPrice, prompt: nat, completion: nat, cached: nat)
    requires Price(book, model) == Some(price) && cached + 10 <= prompt
    ensures Cost(book, model, Some(prompt), Some(completion), Some(cached + 10)).value
         == Cost(book, model, Some(prompt), Some(completion), Some(cached)).value
            + match price.cached { case Some(rate) => rate - price.input case None => 0 }
  {
    var rate := match price.cached { case Some(rate) => rate case None => price.input };
    Distribute(prompt - cached - 10, 10, price.input);
    Distribute(cached, 10, rate);
    CostsApart(book, model, price, prompt, completion, cached, prompt, completion, cached + 10, rate - price.input);
  }

  /** A cached count beyond the prompt bills as the whole prompt, whatever the rates. */
  lemma CachedBeyondPromptIsIgnored(book: Book, model: Option<string>, prompt: nat, completion: Option<nat>, cached: nat)
    requires prompt <= cached
    ensures Cost(book, model, Some(prompt), completion, Some(cached)) == Cost(book, model, Some(prompt), completion, Some(prompt))
  {
  }

  lemma Tenfold(a: int, b: int)
    ensures (10 * a) * b == 10 * (a * b)
  {
  }

  lemma NanosTenfold(price: ModelPrice, prompt: nat, completion: nat, cached: nat, rate: nat)
    requires cached <= prompt && price.CachedRate() == rate
    ensures Nanos(price, prompt, completion, cached)
         == (prompt - cached) * price.input + cached * rate + completion * price.output
    ensures Nanos(price, 10 * prompt, 10 * completion, 10 * cached) == 10 * Nanos(price, prompt, completion, cached)
  {
    Tenfold(prompt - cached, price.input);
    Tenfold(cached, rate);
    Tenfold(completion, price.output);
    assert 10 * prompt - 10 * cached == 10 * (prompt - cached);
  }

  /** Ten times the counts cost the listed rates exactly, and any counts cost a tenth of that to within half a unit,
      ties upwards: which fixes every figure. */
  lemma TenfoldIsExact(book: Book, model: Option<string>, price: ModelPrice, prompt: nat, completion: nat, cached: nat)
    requires Price(book, model) == Some(price) && cached <= prompt
    ensures var rate := match price.cached { case Some(rate) => rate case None => price.input };
            var tenfold := Cost(book, model, Some(10 * prompt), Some(10 * completion), Some(10 * cached));
            var cost := Cost(book, model, Some(prompt), Some(completion), Some(cached));
            && tenfold == Some((prompt - cached) * price.input + cached * rate + completion * price.output)
            && cost.Some? && -5 < 10 * cost.value - tenfold.value <= 5
  {
    var rate := match price.cached { case Some(rate) => rate case None => price.input };
    NanosTenfold(price, prompt, completion, cached, rate);
    NanosGrow(price, prompt, completion, cached, prompt, completion);
    RoundingIsNearest(Nanos(price, prompt, completion, cached));
  }
}
