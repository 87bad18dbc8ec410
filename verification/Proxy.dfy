/** Quoting a single hop: one source alone, the fast split of a primary and a secondary
    market, or the general split of any sources. Whichever is used, the distribution
    that is executed afterwards is apportioned. */
module Proxy {
  import opened FixedPoint
  import opened Sums
  import opened Linspace
  import opened Optimiser
  import opened Swaps
  import opened Aggregator
  import opened ProxyExchange
  import opened FastSplit

  datatype Source = Source(isPrimary: bool, quote: Quote)

  /** What the two markets of a fast split answer. */
  datatype MarketInfo = MarketInfo(reserves: (nat, nat), price: Option<Fixed>, collateralReserves: Option<nat>)

  datatype Direction = BuyingBase | SellingBase

  function AsShares(distribution: seq<Fixed>): (shares: seq<nat>)
    requires forall i :: 0 <= i < |distribution| ==> distribution[i] >= 0
    ensures |shares| == |distribution|
  {
    seq(|distribution|, i requires 0 <= i < |distribution| => distribution[i] as nat)
  }

  /** The distribution can be executed without overspending, and with bounded dust. */
  ghost predicate Executable(quoted: Aggregated) {
    && (forall i :: 0 <= i < |quoted.distribution| ==> quoted.distribution[i] >= 0)
    && Apportioned(AsShares(quoted.distribution))
  }

  lemma WholeApportioned(amount: nat, fee: nat)
    ensures Executable(Aggregated([S], amount, fee))
  {
    var shares := AsShares([S]);
    assert shares == [S] && shares[..0] == [];
  }

  lemma PairApportioned(p: nat, s: nat)
    requires p + s == S
    ensures Apportioned([p, s])
  {
    SumAppend([], p);
    SumAppend([p], s);
    assert [] + [p] == [p] && [p] + [s] == [p, s];
    SomeUsed([p, s]);
  }

  lemma TwoApportioned(quoted: Aggregated)
    requires |quoted.distribution| == 2 && 0 <= quoted.distribution[0] <= S && 0 <= quoted.distribution[1] <= S
    requires quoted.distribution[0] + quoted.distribution[1] == S
    ensures Executable(quoted)
  {
    assert AsShares(quoted.distribution) == [quoted.distribution[0] as nat, quoted.distribution[1] as nat];
    PairApportioned(quoted.distribution[0], quoted.distribution[1]);
  }

  lemma ChosenApportioned(quotes: seq<Quote>, request: SwapAmount, n: nat, quoted: Aggregated)
    requires n < USIZE && n <= S && exists parts: seq<nat> :: Chosen(quotes, request, n, parts, quoted)
    ensures Executable(quoted)
  {
    var parts: seq<nat> :| Chosen(quotes, request, n, parts, quoted);
    GeneralSplitApportioned(parts, n);
    assert AsShares(quoted.distribution) == Shares(parts, n);
  }

  /** The position of the last primary (or secondary) market among the sources. */
  function LastOf(sources: seq<Source>, primary: bool): (i: Option<nat>)
    ensures i.Some? ==> i.value < |sources| && sources[i.value].isPrimary == primary
    ensures i.None? ==> forall k :: 0 <= k < |sources| ==> sources[k].isPrimary != primary
  {
    if sources == [] then None
    else if sources[|sources| - 1].isPrimary == primary then Some(|sources| - 1)
    else LastOf(sources[..|sources| - 1], primary)
  }

  /** What the fast split promises: without reserves in the secondary market, the primary
      market gets everything; otherwise the trade is partitioned, with the fraction that
      the direction of the trade calls for. */
  predicate FastSplitOf(primary: Quote, secondary: Quote, direction: Direction, request: SwapAmount, info: MarketInfo,
                        quoted: Aggregated) {
    if info.reserves.0 == 0 || info.reserves.1 == 0
    then quoted.distribution == [S, 0] && primary(request) == Some(Outcome(quoted.amount, quoted.fee))
    else
      && Partitioned(primary, secondary, request, quoted)
      && info.price.Some?
      && var market := Market(info.reserves.0, info.reserves.1, info.price.value);
      if direction.BuyingBase? then quoted.distribution[1] == SecondaryBuying(market, request.variant, request.amount)
      else
        var collateral := if info.collateralReserves.Some? then info.collateralReserves.value else 0;
        quoted.distribution[0] == PrimarySelling(market, request.variant, request.amount, collateral)
  }

  method FastSplitPrimaryVsSecondary(primary: Quote, secondary: Quote, direction: Direction, request: SwapAmount,
                                     market: MarketInfo)
    returns (r: Result<Aggregated, ProxyError>)
    ensures r.Ok? ==> Executable(r.value) && |r.value.distribution| == 2
    ensures r.Err? ==> r.error == SourceFailed || r.error == CalculationError
    ensures r.Ok? ==> FastSplitOf(primary, secondary, direction, request, market, r.value)
  {
    if market.reserves.0 == 0 || market.reserves.1 == 0 {
      var outcome := primary(request);
      if outcome.None? { return Err(SourceFailed); }
      r := Ok(Aggregated([S, 0], outcome.value.amount, outcome.value.fee));
    } else if direction.BuyingBase? {
      r := DecideAmountsBuyingBaseAsset(primary, secondary, request, market.reserves, market.price);
    } else {
      r := DecideAmountsSellingBaseAsset(primary, secondary, request, market.reserves, market.price,
                                         market.collateralReserves);
    }
    if r.Ok? { TwoApportioned(r.value); }
  }

  function Quotes(sources: seq<Source>): (quotes: seq<Quote>)
    ensures |quotes| == |sources|
  {
    seq(|sources|, i requires 0 <= i < |sources| => sources[i].quote)
  }

  /** One primary and one secondary market, whichever comes first. */
  predicate Paired(sources: seq<Source>) {
    |sources| == 2 && sources[0].isPrimary != sources[1].isPrimary
  }

  /** What an accepted quote promises, with the order that says which source each share
      belongs to: a lone source gets everything and quotes the outcome itself; a primary
      and a secondary market share by the fast split; any others share by an optimal
      general split. */
  ghost predicate WellRouted(sources: seq<Source>, direction: Direction, request: SwapAmount, market: MarketInfo,
                             n: nat, quoted: Aggregated, order: seq<nat>)
    requires n < USIZE
  {
    && |order| == |quoted.distribution| == |sources|
    && (forall i :: 0 <= i < |order| ==> order[i] < |sources|)
    && if |sources| == 1 then
         quoted.distribution == [S] && sources[0].quote(request) == Some(Outcome(quoted.amount, quoted.fee))
       else if Paired(sources) then
         sources[order[0]].isPrimary && !sources[order[1]].isPrimary
         && FastSplitOf(sources[order[0]].quote, sources[order[1]].quote, direction, request, market, quoted)
       else
         (forall i :: 0 <= i < |order| ==> order[i] == i)
         && exists parts: seq<nat> :: Chosen(Quotes(sources), request, n, parts, quoted)
  }

  lemma GenerallyRouted(sources: seq<Source>, direction: Direction, request: SwapAmount, market: MarketInfo, n: nat,
                        quoted: Aggregated, order: seq<nat>)
    requires n < USIZE && n <= S && |sources| > 1 && !Paired(sources)
    requires exists parts: seq<nat> :: Chosen(Quotes(sources), request, n, parts, quoted)
    requires |order| == |sources| && forall i :: 0 <= i < |order| ==> order[i] == i
    ensures Executable(quoted) && WellRouted(sources, direction, request, market, n, quoted, order)
  {
    ChosenApportioned(Quotes(sources), request, n, quoted);
    var parts: seq<nat> :| Chosen(Quotes(sources), request, n, parts, quoted);
    assert |quoted.distribution| == |sources|;
  }

  method QuoteSingle(sources: seq<Source>, direction: Direction, request: SwapAmount, market: MarketInfo, n: nat)
    returns (r: Result<Aggregated, ProxyError>, order: seq<nat>)
    requires n < USIZE && n <= S
    ensures sources == [] <==> r == Err(UnavailableExchangePath)
    ensures r.Ok? ==> Executable(r.value)
    ensures r.Ok? ==> WellRouted(sources, direction, request, market, n, r.value, order)
  {
    order := [];
    if sources == [] { return Err(UnavailableExchangePath), []; }
    if |sources| == 1 {
      var outcome := sources[0].quote(request);
      if outcome.None? { return Err(SourceFailed), []; }
      WholeApportioned(outcome.value.amount, outcome.value.fee);
      return Ok(Aggregated([S], outcome.value.amount, outcome.value.fee)), [0];
    }
    if |sources| == 2 {
      var primary, secondary := LastOf(sources, true), LastOf(sources, false);
      if primary.Some? && secondary.Some? {
        r := FastSplitPrimaryVsSecondary(sources[primary.value].quote, sources[secondary.value].quote, direction,
                                         request, market);
        return r, [primary.value, secondary.value];
      }
    }
    r := GenericSplit(Quotes(sources), request, n);
    if r.Ok? {
      order := seq(|sources|, i => i);
      GenerallyRouted(sources, direction, request, market, n, r.value, order);
    }
  }
}
