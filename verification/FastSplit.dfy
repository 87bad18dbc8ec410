/** The fast split of a trade between the primary market (a bonding curve) and the
    secondary one (a constant-product pool): the secondary market gets what brings its
    price to the primary price, the primary market gets the rest. */
module FastSplit {
  import opened FixedPoint
  import opened Optimiser
  import opened Aggregator
  import opened ProxyExchange
  import opened Swaps

  // ----- calculations that may already have failed

  function Times(a: Fx, b: Fx): Fx {
    var x :- a;
    var y :- b;
    Mul(x, y)
  }

  function Over(a: Fx, b: Fx): Fx {
    var x :- a;
    var y :- b;
    Div(x, y)
  }

  function Minus(a: Fx, b: Fx): Fx {
    var x :- a;
    var y :- b;
    Sub(x, y)
  }

  /** A failed calculation compares false with everything. */
  predicate Less(a: Fx, b: Fx) {
    a.Val? && b.Val? && a.v < b.v
  }

  // ----- the fractions

  datatype Market = Market(reservesBase: nat, reservesOther: nat, primaryPrice: Fixed)

  function SqrtK(m: Market): Fx {
    var x :- FromBalance(m.reservesBase);
    var y :- FromBalance(m.reservesOther);
    MultiplyAndSqrt(x, y)
  }

  function SecondaryPrice(m: Market): Fx {
    Over(FromBalance(m.reservesOther), FromBalance(m.reservesBase))
  }

  /** What moves the secondary price to the primary one: an input or an output. */
  function DeltaBuying(m: Market, variant: Variant): Fx {
    if variant.WithDesiredInput? then Minus(Times(SqrtK(m), Sqrt(m.primaryPrice)), FromBalance(m.reservesOther))
    else Minus(FromBalance(m.reservesBase), Over(SqrtK(m), Sqrt(m.primaryPrice)))
  }

  function DeltaSelling(m: Market, variant: Variant): Fx {
    if variant.WithDesiredInput? then Minus(Over(SqrtK(m), Sqrt(m.primaryPrice)), FromBalance(m.reservesBase))
    else Minus(FromBalance(m.reservesOther), Times(SqrtK(m), Sqrt(m.primaryPrice)))
  }

  function Clamp(fraction: Fixed): (r: nat)
    ensures r <= S
    ensures 0 <= fraction <= S ==> r == fraction
  {
    if fraction > S then S else if fraction < 0 then 0 else fraction
  }

  function Fraction(delta: Fx, amount: nat): (r: nat)
    ensures r <= S
  {
    Clamp(Over(delta, FromBalance(amount)).GetOr(0))
  }

  function SecondaryBuying(m: Market, variant: Variant, amount: nat): (r: nat)
    ensures r <= S
  {
    if Less(SecondaryPrice(m), Val(m.primaryPrice)) then Fraction(DeltaBuying(m, variant), amount) else 0
  }

  function SecondarySelling(m: Market, variant: Variant, amount: nat): (r: nat)
    ensures r <= S
  {
    if Less(Val(m.primaryPrice), SecondaryPrice(m)) then Fraction(DeltaSelling(m, variant), amount) else 0
  }

  const NINE_TENTHS: Fixed := 900_000_000_000_000_000

  lemma ReweighedFits(amount: nat, primary: nat, collateralReserves: nat)
    requires primary <= S && Less(FromBalance(collateralReserves), Times(FromBalance(amount), Val(primary)))
    ensures var reduced := Times(Val(NINE_TENTHS), FromBalance(collateralReserves));
            && reduced.Val? && 0 <= reduced.v <= collateralReserves < amount <= MAX
            && Over(reduced, FromBalance(amount)).Val? && 0 <= Over(reduced, FromBalance(amount)).v <= S
  {
    SentBelow(amount, primary);
    assert amount * primary == primary * amount;
    var reduced := NINE_TENTHS * collateralReserves / S;
    var q := FloorDiv(reduced * S, amount);
    if q > S { MulMono(S + 1, q, amount); }
  }

  /** Buying an exact amount of collateral, the primary market is asked for no more than
      90% of its collateral reserves if its fraction would exceed them. */
  function PrimarySelling(m: Market, variant: Variant, amount: nat, collateralReserves: nat): (r: nat)
    ensures r <= S
  {
    var primary := S - SecondarySelling(m, variant, amount);
    if variant.WithDesiredInput? then primary
    else if Less(FromBalance(collateralReserves), Times(FromBalance(amount), Val(primary))) then
      ReweighedFits(amount, primary, collateralReserves);
      Over(Times(Val(NINE_TENTHS), FromBalance(collateralReserves)), FromBalance(amount)).GetOr(0)
    else primary
  }

  // ----- when the deltas are positive

  lemma QuotientAbove(n: int, d: int, a: nat)
    requires d > 0
    ensures n / d - a > 0 <==> n >= (a + 1) * d
  {
    FloorBounds(n, d);
    if n / d > a { MulMono(a + 1, n / d, d); }
    if n >= (a + 1) * d && n / d <= a { MulMono(n / d, a, d); }
  }

  /** Buying for an exact input, the delta is positive exactly when the floored product of
      the two roots reaches the next unit of the other reserve. */
  lemma BuyingInputPositive(m: Market)
    requires DeltaBuying(m, WithDesiredInput).Val?
    ensures DeltaBuying(m, WithDesiredInput).v > 0 <==> SqrtK(m).v * Sqrt(m.primaryPrice).v >= (m.reservesOther + 1) * S
  {
    QuotientAbove(SqrtK(m).v * Sqrt(m.primaryPrice).v, S, m.reservesOther);
  }

  lemma QuotientBelow(n: int, d: int, a: nat)
    requires d > 0
    ensures a - n / d > 0 <==> n < a * d
  {
    FloorBounds(n, d);
    if n / d < a { MulMono(n / d + 1, a, d); }
    if n < a * d && n / d >= a { MulMono(a, n / d, d); }
  }

  /** Buying an exact output, exactly when the scaled root of the product is below the base
      reserve at the root of the price. */
  lemma BuyingOutputPositive(m: Market)
    requires DeltaBuying(m, WithDesiredOutput).Val?
    ensures DeltaBuying(m, WithDesiredOutput).v > 0 <==> SqrtK(m).v * S < m.reservesBase * Sqrt(m.primaryPrice).v
  {
    QuotientBelow(SqrtK(m).v * S, Sqrt(m.primaryPrice).v, m.reservesBase);
  }

  /** Selling an exact input, exactly when it reaches the next unit of the base reserve. */
  lemma SellingInputPositive(m: Market)
    requires DeltaSelling(m, WithDesiredInput).Val?
    ensures DeltaSelling(m, WithDesiredInput).v > 0 <==> SqrtK(m).v * S >= (m.reservesBase + 1) * Sqrt(m.primaryPrice).v
  {
    QuotientAbove(SqrtK(m).v * S, Sqrt(m.primaryPrice).v, m.reservesBase);
  }

  lemma SqrtKBelow(m: Market)
    requires SqrtK(m).Val?
    ensures SqrtK(m).v >= 0 && SqrtK(m).v * SqrtK(m).v <= m.reservesBase * m.reservesOther
  {
    MultiplyAndSqrtBelow(m.reservesBase, m.reservesOther);
  }

  lemma PriceBelow(m: Market)
    requires Less(Val(m.primaryPrice), SecondaryPrice(m)) && m.reservesBase > 0
    ensures m.primaryPrice * m.reservesBase < m.reservesOther * S
  {
    MulMono(m.primaryPrice + 1, SecondaryPrice(m).v, m.reservesBase);
  }

  /** At a price below that of the reserves, the product of the floored roots stays below
      the other reserve. */
  lemma RootsBelow(x: nat, y: nat, p: nat, rootK: nat, rootP: nat)
    requires x > 0 && p * x < y * S
    requires rootK * rootK <= x * y && rootP * rootP <= p * S
    ensures rootK * rootP < y * S
  {
    var product, bound := rootK * rootP, y * S;
    ProductLe(rootK * rootK, x * y, rootP * rootP, p * S);
    Regroup(rootK, rootP, rootK, rootP);
    assert (x * y) * (p * S) == (p * x) * bound;
    MulMono(p * x + 1, bound, bound);
    assert (p * x + 1) * bound == (p * x) * bound + bound;
    if product >= bound { SquareLe(bound, product); }
  }

  lemma TestSuffices(m: Market)
    requires m.reservesBase > 0 && Less(Val(m.primaryPrice), SecondaryPrice(m))
    requires SqrtK(m).Val? && Sqrt(m.primaryPrice).Val?
    ensures SqrtK(m).v * Sqrt(m.primaryPrice).v < m.reservesOther * S
  {
    PriceBelow(m);
    SqrtKBelow(m);
    RootsBelow(m.reservesBase, m.reservesOther, m.primaryPrice, SqrtK(m).v, Sqrt(m.primaryPrice).v);
  }

  /** Selling for an exact output, exactly when the product of the roots is below the other
      reserve, which the test of the prices already ensures. */
  lemma SellingOutputPositive(m: Market)
    requires DeltaSelling(m, WithDesiredOutput).Val?
    ensures DeltaSelling(m, WithDesiredOutput).v > 0 <==> SqrtK(m).v * Sqrt(m.primaryPrice).v < m.reservesOther * S
    ensures m.reservesBase > 0 && Less(Val(m.primaryPrice), SecondaryPrice(m)) ==>
            DeltaSelling(m, WithDesiredOutput).v > 0
  {
    QuotientBelow(SqrtK(m).v * Sqrt(m.primaryPrice).v, S, m.reservesOther);
    if m.reservesBase > 0 && Less(Val(m.primaryPrice), SecondaryPrice(m)) { TestSuffices(m); }
  }

  lemma PriceAbove(m: Market)
    requires Less(SecondaryPrice(m), Val(m.primaryPrice)) && m.reservesBase > 0
    ensures m.reservesOther * S < m.primaryPrice * m.reservesBase
  {
    MulMono(SecondaryPrice(m).v + 1, m.primaryPrice, m.reservesBase);
  }

  lemma QuotientTest(n: int, d: nat, p: int)
    requires d > 0
    ensures n / d < p <==> n < p * d
  {
    FloorBounds(n, d);
    if n / d < p { MulMono(n / d + 1, p, d); } else { MulMono(p, n / d, d); }
  }

  /** The tests of the prices, by the reserves: a quotient of the reserves too large to be a
      fixed-point number passes neither. */
  lemma PriceTestsExactly(m: Market)
    ensures Less(SecondaryPrice(m), Val(m.primaryPrice)) <==>
            && 0 < m.reservesBase <= MAX && m.reservesOther <= MAX
            && m.reservesOther * S < m.primaryPrice * m.reservesBase
    ensures Less(Val(m.primaryPrice), SecondaryPrice(m)) <==>
            && 0 < m.reservesBase <= MAX && m.reservesOther <= MAX
            && (m.primaryPrice + 1) * m.reservesBase <= m.reservesOther * S < (MAX + 1) * m.reservesBase
  {
    var x, y, p: int := m.reservesBase, m.reservesOther, m.primaryPrice;
    if x > 0 {
      FloorMono(0, y * S, x);
      QuotientTest(y * S, x, p);
      QuotientTest(y * S, x, p + 1);
      QuotientTest(y * S, x, MAX + 1);
    }
  }

  /** Only a secondary market at the better price is used. */
  lemma RoutedOnlyIfBetter(m: Market, variant: Variant, amount: nat)
    ensures SecondaryBuying(m, variant, amount) > 0 ==> m.reservesOther * S < m.primaryPrice * m.reservesBase
    ensures SecondarySelling(m, variant, amount) > 0 ==> m.primaryPrice * m.reservesBase < m.reservesOther * S
  {
    PriceTestsExactly(m);
    if SecondarySelling(m, variant, amount) > 0 { TimesSum(m.primaryPrice, 1, m.reservesBase); }
  }

  /** Rounding can win: three of the deltas can be zero or negative although the prices pass
      the test before them. Here, buying for an exact input. */
  lemma BuyingInputCanFail()
    ensures var m := Market(2, 3, 3 * S / 2 + 1);
            Less(SecondaryPrice(m), Val(m.primaryPrice)) && DeltaBuying(m, WithDesiredInput) == Val(-1)
  {
    RootUnique(2 * S, 1_414_213_562);
    RootUnique(3 * S, 1_732_050_807);
    var price := 3 * S / 2 + 1;
    RootUnique(price * S, 1_224_744_871_391_589_049);
    assert Sqrt(price) == Val(1_224_744_871_391_589_049);
    assert Mul(1_414_213_562, 1_732_050_807) == Val(2);
    assert Mul(2, 1_224_744_871_391_589_049) == Val(2);
    assert Div(3, 2) == Val(3 * S / 2);
  }

  /** Buying an exact output. */
  lemma BuyingOutputCanFail()
    ensures var m := Market(1, 1, S + 1);
            Less(SecondaryPrice(m), Val(m.primaryPrice)) && DeltaBuying(m, WithDesiredOutput) == Val(0)
  {
    RootUnique(S, 1_000_000_000);
    RootUnique((S + 1) * S, S);
    assert Sqrt(S + 1) == Val(S);
    assert Mul(1_000_000_000, 1_000_000_000) == Val(1);
    assert Div(1, S) == Val(1) && Div(1, 1) == Val(S);
  }

  /** Selling an exact input. */
  lemma SellingInputCanFail()
    ensures var m := Market(2, 2, S - 1);
            Less(Val(m.primaryPrice), SecondaryPrice(m)) && DeltaSelling(m, WithDesiredInput) == Val(-1)
  {
    RootUnique(2 * S, 1_414_213_562);
    RootUnique((S - 1) * S, S - 1);
    assert Sqrt(S - 1) == Val(S - 1);
    assert Mul(1_414_213_562, 1_414_213_562) == Val(1);
    assert Div(1, S - 1) == Val(1) && Div(2, 2) == Val(S);
  }

  // ----- quoting both markets

  function QuotedOutcome(quote: Quote, variant: Variant, amount: nat): Option<Outcome> {
    if amount == 0 then Some(Outcome(0, 0))
    else quote(SwapAmount(variant, amount, if variant.WithDesiredInput? then 0 else U128 - 1))
  }

  /** What an accepted split promises: two fractions that sum to exactly one, parts of
      the trade that total the request or one base unit less, and the sums of what both
      markets quote for their parts. */
  predicate Partitioned(primary: Quote, secondary: Quote, request: SwapAmount, r: Aggregated) {
    && |r.distribution| == 2
    && 0 <= r.distribution[0] <= S && 0 <= r.distribution[1] <= S
    && r.distribution[0] + r.distribution[1] == S
    && request.amount <= MAX
    && request.amount - 1 <= Sent(request.amount, r.distribution[0]) + Sent(request.amount, r.distribution[1]) <=
          request.amount
    && var p := QuotedOutcome(primary, request.variant, Sent(request.amount, r.distribution[0]));
    && var s := QuotedOutcome(secondary, request.variant, Sent(request.amount, r.distribution[1]));
    && p.Some? && s.Some?
    && r.amount == WrapAdd(p.value.amount, s.value.amount) && r.fee == WrapAdd(p.value.fee, s.value.fee)
  }

  /** The request is too large, or a market does not answer for its part of it. */
  predicate Unanswered(primary: Quote, secondary: Quote, request: SwapAmount, fractionPrimary: nat,
                       fractionSecondary: nat) {
    || request.amount > MAX
    || QuotedOutcome(primary, request.variant, Sent(request.amount, fractionPrimary)).None?
    || QuotedOutcome(secondary, request.variant, Sent(request.amount, fractionSecondary)).None?
  }

  /** Asks a market for its part of the trade, unless that is nothing. */
  method QuotePart(quote: Quote, request: SwapAmount, share: Fixed) returns (r: Result<Outcome, ProxyError>)
    requires 0 <= share <= S
    ensures r.Ok? <==>
            request.amount <= MAX && QuotedOutcome(quote, request.variant, Sent(request.amount, share)).Some?
    ensures r.Ok? ==> QuotedOutcome(quote, request.variant, Sent(request.amount, share)) == Some(r.value)
    // the limit is the loosest one, and nothing is asked for nothing
    ensures r.Ok? ==>
              var part := Sent(request.amount, share);
              if part == 0 then r.value == Outcome(0, 0)
              else if request.variant.WithDesiredInput? then quote(SwapAmount(request.variant, part, 0)) ==
                  Some(r.value)
              else quote(SwapAmount(request.variant, part, U128 - 1)) == Some(r.value)
    ensures r.Err? ==> r.error == CalculationError
  {
    var amt := Times(FromBalance(request.amount), Val(share));
    if request.amount <= MAX { SentFits(request.amount, share); }
    assert request.amount * share == share * request.amount;
    if amt.Fail? || amt.v < 0 { return Err(CalculationError); }
    var outcome := QuotedOutcome(quote, request.variant, amt.v);
    r := if outcome.None? then Err(CalculationError) else Ok(outcome.value);
  }

  /** Outcomes added up as 128-bit balances. */
  function AddAll(outcomes: seq<Outcome>): Outcome {
    if outcomes == [] then Outcome(0, 0)
    else
      var last, before := outcomes[|outcomes| - 1], AddAll(outcomes[..|outcomes| - 1]);
      Outcome(WrapAdd(before.amount, last.amount), WrapAdd(before.fee, last.fee))
  }

  lemma WrapTwice(x: nat, y: nat)
    ensures WrapAdd(WrapAdd(0, x), y) == WrapAdd(x, y)
  {
    FloorBounds(x, U128);
    FloorBounds(x % U128 + y, U128);
    FloorUnique(x + y, U128, x / U128 + (x % U128 + y) / U128);
  }

  lemma TwoOutcomes(outcomes: seq<Outcome>)
    requires |outcomes| == 2
    ensures AddAll(outcomes) ==
            Outcome(WrapAdd(outcomes[0].amount, outcomes[1].amount), WrapAdd(outcomes[0].fee, outcomes[1].fee))
  {
    assert outcomes[..1][..0] == [] && outcomes[..1][0] == outcomes[0];
    assert AddAll(outcomes[..1]) == Outcome(WrapAdd(0, outcomes[0].amount), WrapAdd(0, outcomes[0].fee));
    WrapTwice(outcomes[0].amount, outcomes[1].amount);
    WrapTwice(outcomes[0].fee, outcomes[1].fee);
  }

  lemma SplitParts(amount: nat, p: nat, s: nat)
    requires p + s == S
    ensures amount - 1 <= Sent(amount, p) + Sent(amount, s) <= amount
  {
    TimesSum(p, s, amount);
    FloorBounds(p * amount, S);
    FloorBounds(s * amount, S);
  }

  method QuoteBoth(primary: Quote, secondary: Quote, request: SwapAmount, fractionPrimary: nat, fractionSecondary: nat)
    returns (r: Result<Aggregated, ProxyError>)
    requires fractionPrimary + fractionSecondary == S
    ensures r.Ok? ==> Partitioned(primary, secondary, request, r.value)
    ensures r.Ok? ==> r.value.distribution == [fractionPrimary, fractionSecondary]
    ensures r.Err? <==> Unanswered(primary, secondary, request, fractionPrimary, fractionSecondary)
    ensures r.Err? ==> r.error == CalculationError
  {
    var distribution: seq<Fixed> := [fractionPrimary, fractionSecondary];
    var quotes := [primary, secondary];
    var best: nat, totalFee: nat := 0, 0;
    ghost var outcomes: seq<Outcome> := [];
    for i := 0 to 2
      invariant |outcomes| == i
      invariant i > 0 ==> request.amount <= MAX
      invariant forall k :: 0 <= k < i ==>
                  QuotedOutcome(quotes[k], request.variant, Sent(request.amount, distribution[k])) == Some(outcomes[k])
      invariant best == AddAll(outcomes).amount && totalFee == AddAll(outcomes).fee
    {
      var outcome := QuotePart(quotes[i], request, distribution[i]);
      if outcome.Err? { return Err(outcome.error); }
      best := WrapAdd(best, outcome.value.amount);
      totalFee := WrapAdd(totalFee, outcome.value.fee);
      outcomes := outcomes + [outcome.value];
      assert outcomes[..i] + [outcome.value] == outcomes;
    }
    SplitParts(request.amount, fractionPrimary, fractionSecondary);
    TwoOutcomes(outcomes);
    r := Ok(Aggregated(distribution, best, totalFee));
  }

  method DecideAmountsBuyingBaseAsset(primary: Quote, secondary: Quote, request: SwapAmount,
                                      reserves: (nat, nat), buyPrice: Option<Fixed>)
    returns (r: Result<Aggregated, ProxyError>)
    ensures r.Ok? ==> Partitioned(primary, secondary, request, r.value)
    ensures r.Ok? ==> buyPrice.Some?
    ensures r.Ok? ==>
              var market := Market(reserves.0, reserves.1, buyPrice.value);
              r.value.distribution[1] == SecondaryBuying(market, request.variant, request.amount)
    ensures r.Err? && buyPrice.Some? ==>
              var market := Market(reserves.0, reserves.1, buyPrice.value);
              var fraction := SecondaryBuying(market, request.variant, request.amount);
              Unanswered(primary, secondary, request, S - fraction, fraction)
    ensures r.Err? ==> r.error == CalculationError
  {
    if buyPrice.None? { return Err(CalculationError); }
    var market := Market(reserves.0, reserves.1, buyPrice.value);
    var fractionSecondary: Fixed := 0;
    if Less(SecondaryPrice(market), Val(market.primaryPrice)) {
      var delta := DeltaBuying(market, request.variant);
      fractionSecondary := Over(delta, FromBalance(request.amount)).GetOr(0);
      if fractionSecondary > S { fractionSecondary := S; }
      if fractionSecondary < 0 { fractionSecondary := 0; }
    }
    r := QuoteBoth(primary, secondary, request, S - fractionSecondary, fractionSecondary);
  }

  /** What a fraction of an amount routes is at most what the fraction was made from. */
  lemma RoutedBelow(amount: nat, fraction: nat, made: nat)
    requires fraction * amount <= made * S
    ensures Sent(amount, fraction) <= made
  {
    FloorMono(fraction * amount, made * S, S);
  }

  lemma PrimaryWithinReserves(m: Market, amount: nat, collateralReserves: nat)
    requires amount <= MAX
    ensures Sent(amount, PrimarySelling(m, WithDesiredOutput, amount, collateralReserves)) <= collateralReserves
  {
    var primary := S - SecondarySelling(m, WithDesiredOutput, amount);
    SentBelow(amount, primary);
    SentFits(amount, primary);
    assert amount * primary == primary * amount;
    if Less(FromBalance(collateralReserves), Times(FromBalance(amount), Val(primary))) {
      ReweighedFits(amount, primary, collateralReserves);
      var reduced := Times(Val(NINE_TENTHS), FromBalance(collateralReserves)).v;
      RoutedBelow(amount, Over(Val(reduced), FromBalance(amount)).GetOr(0), reduced);
    }
  }

  lemma CutAbove(reduced: nat, amount: nat, primary: nat, collateral: nat)
    requires reduced * S < primary * amount + amount && NINE_TENTHS * collateral < reduced * S + S
    ensures 9 * collateral * S < 10 * ((Sent(amount, primary) + 2) * S + amount)
  {
    FloorBounds(primary * amount, S);
  }

  lemma CutBounds(amount: nat, rest: nat, collateral: nat, primary: int)
    requires 0 < amount <= MAX && rest <= S && collateral < Sent(amount, rest)
    requires primary == Over(Times(Val(NINE_TENTHS), FromBalance(collateral)), FromBalance(amount)).GetOr(0)
    ensures 0 <= primary <= S
    ensures 10 * Sent(amount, primary) <= 9 * collateral
    ensures 9 * collateral * S < 10 * ((Sent(amount, primary) + 2) * S + amount)
  {
    SentBelow(amount, rest);
    SentFits(amount, rest);
    assert amount * rest == rest * amount;
    ReweighedFits(amount, rest, collateral);
    var reduced := Times(Val(NINE_TENTHS), FromBalance(collateral)).v;
    assert NINE_TENTHS * collateral < reduced * S + S;
    assert primary * amount <= reduced * S < primary * amount + amount;
    RoutedBelow(amount, primary, reduced);
    CutAbove(reduced, amount, primary, collateral);
  }

  lemma CutTest(amount: nat, rest: nat, collateral: nat)
    requires amount <= MAX && rest <= S
    ensures Less(FromBalance(collateral), Times(FromBalance(amount), Val(rest))) <==> collateral < Sent(amount, rest)
  {
    SentBelow(amount, rest);
    SentFits(amount, rest);
    assert amount * rest == rest * amount;
  }

  /** Before the cut, the primary market gets what the secondary one leaves. It is cut exactly
      when that is more than its collateral reserves, and then to nine tenths of them, but for
      what the fraction and the part drop. */
  lemma PrimaryCutExactly(m: Market, amount: nat, collateralReserves: nat)
    requires 0 < amount <= MAX
    ensures var rest := S - SecondarySelling(m, WithDesiredOutput, amount);
            var primary := PrimarySelling(m, WithDesiredOutput, amount, collateralReserves);
            if Sent(amount, rest) <= collateralReserves then primary == rest
            else
              && 10 * Sent(amount, primary) <= 9 * collateralReserves
              && 9 * collateralReserves * S < 10 * ((Sent(amount, primary) + 2) * S + amount)
  {
    var rest := S - SecondarySelling(m, WithDesiredOutput, amount);
    var primary := PrimarySelling(m, WithDesiredOutput, amount, collateralReserves);
    CutTest(amount, rest, collateralReserves);
    if collateralReserves < Sent(amount, rest) {
      CutBounds(amount, rest, collateralReserves, primary);
    }
  }

  /** The fractions of a sale: the secondary one that moves its price to the primary one, and the
      primary one cut to its reserves. */
  method SellingFractions(market: Market, variant: Variant, amount: nat, collateral: nat)
    returns (fractionPrimary: nat, fractionSecondary: nat)
    ensures fractionPrimary == PrimarySelling(market, variant, amount, collateral)
    ensures fractionPrimary + fractionSecondary == S
  {
    var secondary: Fixed := 0;
    if Less(Val(market.primaryPrice), SecondaryPrice(market)) {
      var delta := DeltaSelling(market, variant);
      secondary := Over(delta, FromBalance(amount)).GetOr(0);
      if secondary > S { secondary := S; }
      if secondary < 0 { secondary := 0; }
    }
    fractionPrimary, fractionSecondary := S - secondary, secondary;
    if variant.WithDesiredOutput? {
      var amountToSell := Times(FromBalance(amount), Val(fractionPrimary));
      if Less(FromBalance(collateral), amountToSell) {
        ReweighedFits(amount, fractionPrimary, collateral);
        fractionPrimary := Over(Times(Val(NINE_TENTHS), FromBalance(collateral)), FromBalance(amount)).GetOr(0);
        fractionSecondary := S - fractionPrimary;
      }
    }
  }

  method DecideAmountsSellingBaseAsset(primary: Quote, secondary: Quote, request: SwapAmount,
                                       reserves: (nat, nat), sellPrice: Option<Fixed>, collateralReserves: Option<nat>)
    returns (r: Result<Aggregated, ProxyError>)
    ensures r.Ok? ==> Partitioned(primary, secondary, request, r.value)
    ensures r.Ok? ==> sellPrice.Some?
    ensures r.Ok? ==>
              var collateral := if collateralReserves.Some? then collateralReserves.value else 0;
              var market := Market(reserves.0, reserves.1, sellPrice.value);
              r.value.distribution[0] == PrimarySelling(market, request.variant, request.amount, collateral)
    // the primary market is never asked for more collateral than it has
    ensures r.Ok? && request.variant.WithDesiredOutput? ==>
              Sent(request.amount, r.value.distribution[0]) <=
                  if collateralReserves.Some? then collateralReserves.value else 0
    ensures r.Err? && sellPrice.Some? ==>
              var collateral := if collateralReserves.Some? then collateralReserves.value else 0;
              var market := Market(reserves.0, reserves.1, sellPrice.value);
              var fraction := PrimarySelling(market, request.variant, request.amount, collateral);
              Unanswered(primary, secondary, request, fraction, S - fraction)
    ensures r.Err? ==> r.error == CalculationError
  {
    if sellPrice.None? { return Err(CalculationError); }
    var market := Market(reserves.0, reserves.1, sellPrice.value);
    var collateral := if collateralReserves.Some? then collateralReserves.value else 0;
    var fractionPrimary, fractionSecondary := SellingFractions(market, request.variant, request.amount, collateral);
    r := QuoteBoth(primary, secondary, request, fractionPrimary, fractionSecondary);
    if r.Ok? && request.variant.WithDesiredOutput? {
      PrimaryWithinReserves(market, request.amount, collateral);
    }
  }

  // ----- the point of the split

  /** With the other reserve at `y'` the marginal price is at most the primary price. */
  predicate NotOverpriced(m: Market, y': nat) {
    (y' * y') * S <= (m.reservesBase * m.reservesOther) * m.primaryPrice
  }

  lemma NotOverpricedBelow(m: Market, y: nat, y': nat)
    requires y <= y' && NotOverpriced(m, y')
    ensures NotOverpriced(m, y)
  {
    SquareLe(y, y');
  }

  lemma PriceStart(x: nat, y: nat, p: nat)
    requires y * S <= p * x
    ensures (y * y) * S <= (x * y) * p
  {
    MulMono(y * S, p * x, y);
    assert (y * S) * y == (y * y) * S;
    assert (p * x) * y == (x * y) * p;
  }

  lemma AtStart(m: Market)
    requires Less(SecondaryPrice(m), Val(m.primaryPrice)) && m.reservesBase > 0
    ensures NotOverpriced(m, m.reservesOther)
  {
    PriceAbove(m);
    PriceStart(m.reservesBase, m.reservesOther, m.primaryPrice);
  }

  lemma PriceTarget(x: nat, y: nat, p: nat, rootK: nat, rootP: nat, y': nat)
    requires rootK * rootK <= x * y && rootP * rootP <= p * S && y' * S <= rootK * rootP
    ensures (y' * y') * S <= (x * y) * p
  {
    SquareLe(y' * S, rootK * rootP);
    Regroup(y', S, y', S);
    Regroup(rootK, rootP, rootK, rootP);
    ProductLe(rootK * rootK, x * y, rootP * rootP, p * S);
    assert (y' * y') * (S * S) == ((y' * y') * S) * S;
    assert (x * y) * (p * S) == ((x * y) * p) * S;
    CancelLe((y' * y') * S, (x * y) * p, S);
  }

  lemma FractionRouted(delta: Fixed, amount: nat)
    requires delta > 0 && 0 < amount <= MAX
    ensures Sent(amount, Fraction(Val(delta), amount)) <= delta
  {
    var raw := Div(delta, amount);
    var fraction := Fraction(Val(delta), amount);
    if raw.Val? {
      MulMono(fraction, raw.v, amount);
    }
    RoutedBelow(amount, fraction, delta);
  }

  lemma NothingRouted(delta: Fx, amount: nat)
    requires delta.Fail? || delta.v <= 0 || amount == 0
    ensures Sent(amount, Fraction(delta, amount)) == 0
  {
    if delta.Val? && 0 < amount <= MAX {
      var raw := Div(delta.v, amount);
      if raw.Val? && raw.v > 0 { MulMono(1, raw.v, amount); }
    }
  }

  // ----- the other three branches, whose rounding does not all point the same way

  /** How far, in scaled units, the floored root of the product may be below the real one. */
  function RootSlack(m: Market): nat
    requires m.reservesBase <= MAX && m.reservesOther <= MAX
  {
    S + Sqrt(m.reservesBase).v + Sqrt(m.reservesOther).v + 1
  }

  /** Floored roots of the product and of the primary price, and the slack of the first. */
  datatype Roots = Roots(k: nat, price: nat, slack: nat)

  ghost predicate PriceRoot(p: int, root: nat) {
    root * root <= p * S < (root + 1) * (root + 1)
  }

  /** The scaled real root of the product is below `w`. */
  ghost predicate RootBelow(m: Market, w: int) {
    (m.reservesBase * m.reservesOther) * (S * S) < w * w
  }

  ghost predicate RootsOf(m: Market, roots: Roots) {
    && m.primaryPrice >= 0
    && roots.k * roots.k <= m.reservesBase * m.reservesOther
    && RootBelow(m, roots.k * S + roots.slack)
    && PriceRoot(m.primaryPrice, roots.price)
  }

  lemma SqrtKFits(m: Market)
    requires m.reservesBase <= MAX && m.reservesOther <= MAX
    ensures SqrtK(m).Val? && SqrtK(m).v >= 0
  {
    ProductOfRootsFits(Sqrt(m.reservesBase).v, Sqrt(m.reservesOther).v, m.reservesBase, m.reservesOther);
  }

  function MarketRoots(m: Market): Roots
    requires m.reservesBase <= MAX && m.reservesOther <= MAX && m.primaryPrice >= 0
  {
    SqrtKFits(m);
    Roots(SqrtK(m).v, Sqrt(m.primaryPrice).v, RootSlack(m))
  }

  lemma PriceRootIs(p: Fixed)
    requires p >= 0
    ensures PriceRoot(p, Sqrt(p).v)
  {
  }

  lemma RootAbove(m: Market)
    requires m.reservesBase <= MAX && m.reservesOther <= MAX && SqrtK(m).Val?
    ensures RootBelow(m, SqrtK(m).v * S + RootSlack(m))
  {
    var ra, rb := Sqrt(m.reservesBase).v, Sqrt(m.reservesOther).v;
    FlooredProduct(ra, rb, SqrtK(m).v);
    RootProductAbove(SqrtK(m).v, ra, rb, m.reservesBase, m.reservesOther);
  }

  lemma MarketRootsAre(m: Market)
    requires m.reservesBase <= MAX && m.reservesOther <= MAX && m.primaryPrice >= 0
    ensures RootsOf(m, MarketRoots(m))
  {
    SqrtKFits(m);
    SqrtKBelow(m);
    RootAbove(m);
    PriceRootIs(m.primaryPrice);
  }

  /** What each delta is, in terms of the roots. */
  lemma DeltasAre(m: Market)
    requires m.reservesBase <= MAX && m.reservesOther <= MAX && m.primaryPrice >= 0
    ensures var roots := MarketRoots(m);
            && (DeltaBuying(m, WithDesiredOutput).Val? ==>
                  roots.price > 0 && DeltaBuying(m, WithDesiredOutput).v == m.reservesBase - roots.k * S / roots.price)
            && (DeltaSelling(m, WithDesiredInput).Val? ==>
                  roots.price > 0 && DeltaSelling(m, WithDesiredInput).v == roots.k * S / roots.price - m.reservesBase)
            && (DeltaSelling(m, WithDesiredOutput).Val? ==>
                  DeltaSelling(m, WithDesiredOutput).v == m.reservesOther - roots.k * roots.price / S)
  {
  }

  /** With the base reserve at `x'` and `k` the product, the marginal price `k / (x' * x')` is
      at least the primary price, but for what flooring its root drops. */
  ghost predicate NotUnderpriced(m: Market, roots: Roots, x': int) {
    (x' * x') * (m.primaryPrice * S - 2 * roots.price) <= (m.reservesBase * m.reservesOther) * (S * S)
  }

  lemma UnderTarget(k: nat, p: nat, rootK: nat, rootP: nat, x': nat)
    requires rootK * rootK <= k && p * S < (rootP + 1) * (rootP + 1) && x' * rootP <= rootK * S
    ensures (x' * x') * (p * S - 2 * rootP) <= k * (S * S)
  {
    SquareLe(x' * rootP, rootK * S);
    Regroup(x', rootP, x', rootP);
    Regroup(rootK, S, rootK, S);
    MulMono(rootK * rootK, k, S * S);
    assert (rootP + 1) * (rootP + 1) == rootP * rootP + 2 * rootP + 1;
    MulMono(p * S - 2 * rootP, rootP * rootP, x' * x');
  }

  lemma SoldInput(m: Market, roots: Roots, routed: nat)
    requires RootsOf(m, roots) && roots.price > 0 && routed <= roots.k * S / roots.price - m.reservesBase
    ensures NotUnderpriced(m, roots, m.reservesBase + routed)
  {
    FloorBounds(roots.k * S, roots.price);
    MulMono(m.reservesBase + routed, roots.k * S / roots.price, roots.price);
    UnderTarget(m.reservesBase * m.reservesOther, m.primaryPrice, roots.k, roots.price, m.reservesBase + routed);
  }

  lemma UnderStart(x: nat, y: nat, p: nat, rootP: nat)
    requires p * x <= y * S
    ensures (x * x) * (p * S - 2 * rootP) <= (x * y) * (S * S)
  {
    MulMono(p * S - 2 * rootP, p * S, x * x);
    MulMono(p * x, y * S, x * S);
    assert (p * x) * (x * S) == (x * x) * (p * S);
    assert (y * S) * (x * S) == (x * y) * (S * S);
  }

  /** Selling the base asset for an exact input: the input routed to the secondary market
      pushes its marginal price below the primary one by no more than that. */
  lemma SecondaryNotUnderpriced(m: Market, amount: nat)
    requires Less(Val(m.primaryPrice), SecondaryPrice(m)) && m.primaryPrice >= 0 && amount <= MAX
    ensures m.reservesBase <= MAX && m.reservesOther <= MAX
    ensures NotUnderpriced(m, MarketRoots(m),
                           m.reservesBase + Sent(amount, SecondarySelling(m, WithDesiredInput, amount)))
  {
    var delta := DeltaSelling(m, WithDesiredInput);
    assert m.reservesBase > 0;
    MarketRootsAre(m);
    PriceBelow(m);
    if delta.Val? && delta.v > 0 && amount > 0 {
      FractionRouted(delta.v, amount);
      DeltasAre(m);
      SoldInput(m, MarketRoots(m), Sent(amount, SecondarySelling(m, WithDesiredInput, amount)));
    } else {
      NothingRouted(delta, amount);
      UnderStart(m.reservesBase, m.reservesOther, m.primaryPrice, MarketRoots(m).price);
    }
  }

  /** With the base reserve at `x'`, the real root of the product stays below what the primary
      price allows at one more unit of reserve, but for the slack of the floored root. */
  ghost predicate NotOverpricedForOutput(m: Market, roots: Roots, x': int) {
    x' >= 0 && RootBelow(m, (x' + 1) * (roots.price + 1) + roots.slack)
  }

  lemma OverTarget(x': int, target: int, rootK: nat, rootP: nat, slack: nat, k: int)
    requires 0 <= target <= x' && rootK * S < target * rootP + rootP
    requires k < (rootK * S + slack) * (rootK * S + slack)
    ensures var w := (x' + 1) * (rootP + 1) + slack; k < w * w
  {
    MulMono(target + 1, x' + 1, rootP);
    SquareLe(rootK * S + slack, (x' + 1) * (rootP + 1) + slack);
  }

  lemma LeftOver(m: Market, roots: Roots, x': int, target: nat)
    requires RootBelow(m, roots.k * S + roots.slack)
    requires target <= x' && roots.k * S < target * roots.price + roots.price
    ensures NotOverpricedForOutput(m, roots, x')
  {
    OverTarget(x', target, roots.k, roots.price, roots.slack, (m.reservesBase * m.reservesOther) * (S * S));
  }

  lemma BoughtOutput(m: Market, roots: Roots, routed: nat)
    requires RootsOf(m, roots) && roots.price > 0 && routed <= m.reservesBase - roots.k * S / roots.price
    ensures NotOverpricedForOutput(m, roots, m.reservesBase - routed)
  {
    var target := FloorDiv(roots.k * S, roots.price);
    assert target == roots.k * S / roots.price;
    LeftOver(m, roots, m.reservesBase - routed, target);
  }

  lemma OverStart(x: nat, y: nat, p: nat, rootP: nat, slack: nat)
    requires y * S <= p * x && p * S < (rootP + 1) * (rootP + 1)
    ensures var w := (x + 1) * (rootP + 1) + slack; (x * y) * (S * S) < w * w
  {
    MulMono(y * S, p * x, x * S);
    assert (y * S) * (x * S) == (x * y) * (S * S);
    assert (p * x) * (x * S) == (x * x) * (p * S);
    MulMono(p * S, (rootP + 1) * (rootP + 1), x * x);
    Regroup(x, rootP + 1, x, rootP + 1);
    var w := (x + 1) * (rootP + 1) + slack;
    assert w == x * (rootP + 1) + (rootP + 1) + slack;
    ProductLt(x * (rootP + 1), w, x * (rootP + 1), w);
  }

  lemma NothingBought(m: Market, roots: Roots)
    requires RootsOf(m, roots) && m.reservesOther * S < m.primaryPrice * m.reservesBase
    ensures NotOverpricedForOutput(m, roots, m.reservesBase)
  {
    OverStart(m.reservesBase, m.reservesOther, m.primaryPrice, roots.price, roots.slack);
  }

  /** Buying an exact amount of the base asset: the output taken from the secondary market
      pushes its marginal price above the primary one by no more than that. */
  lemma SecondaryNotOverpricedForOutput(m: Market, amount: nat)
    requires Less(SecondaryPrice(m), Val(m.primaryPrice)) && amount <= MAX && m.reservesBase > 0
    ensures m.primaryPrice >= 0 && m.reservesBase <= MAX && m.reservesOther <= MAX
    ensures NotOverpricedForOutput(m, MarketRoots(m),
                                   m.reservesBase - Sent(amount, SecondaryBuying(m, WithDesiredOutput, amount)))
  {
    var delta := DeltaBuying(m, WithDesiredOutput);
    MarketRootsAre(m);
    PriceAbove(m);
    if delta.Val? && delta.v > 0 && amount > 0 {
      FractionRouted(delta.v, amount);
      DeltasAre(m);
      BoughtOutput(m, MarketRoots(m), Sent(amount, SecondaryBuying(m, WithDesiredOutput, amount)));
    } else {
      NothingRouted(delta, amount);
      NothingBought(m, MarketRoots(m));
    }
  }

  /** With the other reserve at `y'`, the marginal price `y' * y' / k` is at least the primary
      price, at one more unit of reserve and but for the slack of the floored roots. */
  ghost predicate NotUnderpricedForOutput(m: Market, roots: Roots, y': int) {
    var w := (y' + 1) * (S * S) + roots.k * S + roots.slack * (roots.price + 1);
    y' >= 0 && ((m.reservesBase * m.reservesOther) * (S * S)) * (m.primaryPrice * S) < w * w
  }

  /** The product of the roots stays below the next unit of the reserve. */
  lemma RoutedAbove(y: nat, routed: nat, product: nat)
    requires product < y * S && (routed > 0 ==> routed <= y - product / S)
    ensures routed <= y && product < (y - routed + 1) * S
  {
    FloorBounds(product, S);
    if routed > 0 { MulMono(product / S, y - routed, S); }
    assert (y - routed + 1) * S == (y - routed) * S + S;
  }

  lemma OutputTarget(k: nat, p: nat, y': nat, rootK: nat, rootP: nat, slack: nat)
    requires rootK * rootP < (y' + 1) * S
    requires k * (S * S) < (rootK * S + slack) * (rootK * S + slack) && p * S < (rootP + 1) * (rootP + 1)
    ensures var w := (y' + 1) * (S * S) + rootK * S + slack * (rootP + 1);
            (k * (S * S)) * (p * S) < w * w
  {
    var r, w := rootK * S + slack, (y' + 1) * (S * S) + rootK * S + slack * (rootP + 1);
    ProductLt(k * (S * S), r * r, p * S, (rootP + 1) * (rootP + 1));
    Regroup(r, r, rootP + 1, rootP + 1);
    assert r * (rootP + 1) == (rootK * rootP) * S + rootK * S + slack * (rootP + 1);
    MulMono(rootK * rootP, (y' + 1) * S, S);
    assert ((y' + 1) * S) * S == (y' + 1) * (S * S);
    SquareLe(r * (rootP + 1), w);
  }

  lemma SoldForOutput(m: Market, roots: Roots, routed: nat)
    requires m.reservesBase > 0 && m.primaryPrice * m.reservesBase < m.reservesOther * S
    ensures RootsOf(m, roots) && (routed > 0 ==> routed <= m.reservesOther - roots.k * roots.price / S) ==>
            NotUnderpricedForOutput(m, roots, m.reservesOther - routed)
  {
    if RootsOf(m, roots) && (routed > 0 ==> routed <= m.reservesOther - roots.k * roots.price / S) {
      RootsBelow(m.reservesBase, m.reservesOther, m.primaryPrice, roots.k, roots.price);
      RoutedAbove(m.reservesOther, routed, roots.k * roots.price);
      OutputTarget(m.reservesBase * m.reservesOther, m.primaryPrice, m.reservesOther - routed, roots.k, roots.price,
                   roots.slack);
    }
  }

  /** Selling the base asset for an exact output, before the primary market's share is cut to
      its reserves: the output taken from the secondary market pushes its marginal price
      below the primary one by no more than that. */
  lemma SecondaryNotUnderpricedForOutput(m: Market, amount: nat)
    requires Less(Val(m.primaryPrice), SecondaryPrice(m)) && m.primaryPrice >= 0 && amount <= MAX
    ensures m.reservesBase <= MAX && m.reservesOther <= MAX
    ensures NotUnderpricedForOutput(m, MarketRoots(m),
                                    m.reservesOther - Sent(amount, SecondarySelling(m, WithDesiredOutput, amount)))
  {
    var delta := DeltaSelling(m, WithDesiredOutput);
    assert m.reservesBase > 0;
    MarketRootsAre(m);
    PriceBelow(m);
    if delta.Val? && delta.v > 0 && amount > 0 {
      FractionRouted(delta.v, amount);
      DeltasAre(m);
    } else {
      NothingRouted(delta, amount);
    }
    SoldForOutput(m, MarketRoots(m), Sent(amount, SecondarySelling(m, WithDesiredOutput, amount)));
  }

  // ----- and no less of the trade is routed than that

  lemma ProductBelowSquare(x: nat, y: nat)
    ensures x * y < (x + y + 1) * (x + y + 1)
  {
    TimesSum(x, y + 1, x + y + 1);
    MulMono(y, x + y + 1, x);
  }

  lemma RootOfProductAtMost(r: nat, x: nat, y: nat)
    requires r * r <= x * y
    ensures r <= x + y
  {
    ProductBelowSquare(x, y);
    if r > x + y { SquareLe(x + y + 1, r); }
  }

  /** No root is larger than these sums. */
  function SlackBound(m: Market): nat {
    m.reservesBase + m.reservesOther + 3 * S + 1
  }

  ghost predicate RootsAtMost(m: Market, roots: Roots) {
    && roots.k <= m.reservesBase + m.reservesOther
    && roots.slack <= SlackBound(m)
  }

  lemma MarketRootsAtMost(m: Market)
    requires m.reservesBase <= MAX && m.reservesOther <= MAX && m.primaryPrice >= 0
    ensures RootsAtMost(m, MarketRoots(m))
  {
    SqrtKFits(m);
    SqrtKBelow(m);
    RootOfProductAtMost(SqrtK(m).v, m.reservesBase, m.reservesOther);
    RootAtMost(Sqrt(m.reservesBase).v, m.reservesBase);
    RootAtMost(Sqrt(m.reservesOther).v, m.reservesOther);
  }

  lemma RootReaches(v: nat, w: nat, t: nat)
    requires t * t <= v < w * w
    ensures t < w
  {
    if w <= t { SquareLe(w, t); }
  }

  /** The scaled root of the product of the reserves, and that of the primary price: with `y'`
      the other reserve, the marginal price reaches the primary one where `y' * S * S` is the
      product of the two roots; with `x'` the base reserve, where `x' * price` is `product * S`. */
  datatype ExactRoots = ExactRoots(product: nat, price: nat)

  function RootsAt(m: Market): (r: ExactRoots)
    requires m.primaryPrice >= 0
    ensures var k := (m.reservesBase * m.reservesOther) * (S * S);
            r.product * r.product <= k < (r.product + 1) * (r.product + 1)
    ensures r.price * r.price <= m.primaryPrice * S < (r.price + 1) * (r.price + 1)
  {
    ExactRoots(ISqrt((m.reservesBase * m.reservesOther) * (S * S)), ISqrt(m.primaryPrice * S))
  }

  lemma FlooredAbove(delta: nat, amount: nat, fraction: int, routed: int)
    requires delta * S < fraction * amount + amount && fraction * amount < routed * S + S
    ensures delta * S < (routed + 1) * S + amount
  {
  }

  /** The quotient of the delta and the amount does not fit in a fixed-point number. */
  predicate Overflows(delta: int, amount: nat) {
    delta * S >= (MAX + 1) * amount
  }

  /** All of the amount is routed, or the delta but for what flooring the fraction and the part
      drops: less than `1 + amount / S`. */
  predicate Reaches(delta: int, amount: nat, fraction: nat) {
    fraction == S || delta * S < (Sent(amount, fraction) + 1) * S + amount
  }

  lemma WholeOrDelta(delta: Fixed, amount: nat)
    requires 0 < amount <= MAX && !Overflows(delta, amount)
    ensures Reaches(delta, amount, Fraction(Val(delta), amount))
  {
    var fraction := Fraction(Val(delta), amount);
    FloorBounds(fraction * amount, S);
    if delta >= 0 {
      var raw := FloorDiv(delta * S, amount);
      if raw > MAX { MulMono(MAX + 1, raw, amount); }
      if raw <= S { FlooredAbove(delta, amount, fraction, Sent(amount, fraction)); }
    }
  }

  /** A delta is routed, as far as the amount goes, exactly when its quotient by the amount fits:
      if it does not, it counts as nothing, and all of the trade goes to the primary market. */
  lemma RoutedExactly(delta: Fixed, amount: nat)
    requires 0 < amount <= MAX
    ensures Reaches(delta, amount, Fraction(Val(delta), amount)) <==> !Overflows(delta, amount)
    ensures Overflows(delta, amount) ==> Fraction(Val(delta), amount) == 0
  {
    if Overflows(delta, amount) {
      FloorMono((MAX + 1) * amount, delta * S, amount);
      assert (MAX + 1) * amount / amount == MAX + 1 by { FloorUnique((MAX + 1) * amount, amount, MAX + 1); }
    } else {
      WholeOrDelta(delta, amount);
    }
  }

  /** The floored roots that the deltas are made of, against the exact ones. */
  ghost predicate NearRoots(roots: Roots, exact: ExactRoots, slack: nat) {
    roots.price == exact.price && roots.k * S <= exact.product <= roots.k * S + slack
  }

  lemma ScaledSquare(root: nat, k: nat)
    requires root * root <= k
    ensures (root * S) * (root * S) <= k * (S * S)
  {
    Regroup(root, S, root, S);
    MulMono(root * root, k, S * S);
  }

  lemma RootsCompare(m: Market, roots: Roots, exact: ExactRoots)
    requires RootsOf(m, roots) && roots.slack <= SlackBound(m) && exact == RootsAt(m)
    ensures NearRoots(roots, exact, SlackBound(m))
  {
    var k, w := m.reservesBase * m.reservesOther, roots.k * S + roots.slack;
    SameRoot(m.primaryPrice * S, roots.price, exact.price);
    ScaledSquare(roots.k, k);
    RootReaches((roots.k * S) * (roots.k * S), exact.product + 1, roots.k * S);
    RootReaches(k * (S * S), w, exact.product);
  }

  lemma MarketRootsNear(m: Market)
    requires m.reservesBase <= MAX && m.reservesOther <= MAX && m.primaryPrice >= 0
    ensures NearRoots(MarketRoots(m), RootsAt(m), SlackBound(m))
  {
    MarketRootsAre(m);
    MarketRootsAtMost(m);
    RootsCompare(m, MarketRoots(m), RootsAt(m));
  }

  lemma OtherInputReached(y: nat, root: nat, price: nat, exact: nat, slack: nat, target: nat, routed: int, amount: nat)
    requires exact <= root * S + slack && root * price < target * S + S
    requires (target - y) * S < (routed + 1) * S + amount
    ensures exact * price < ((y + routed + 2) * S + amount) * S + slack * price
  {
    MulMono(exact, root * S + slack, price);
    TimesSum(root * S, slack, price);
    assert (root * S) * price == (root * price) * S;
    MulMono(root * price + 1, (y + routed + 2) * S + amount, S);
  }

  /** Buying for an exact input, all of it goes to the secondary market, or its marginal price
      reaches the primary price: at the other reserve after the input, two more units, `amount / S`
      for the floored fraction, and what the floored root of the product can drop. */
  predicate ReachedByOtherInput(y: nat, exact: ExactRoots, slack: nat, amount: nat, fraction: nat) {
    fraction == S
    || exact.product * exact.price < ((y + Sent(amount, fraction) + 2) * S + amount) * S + slack * exact.price
  }

  /** The other reserve at which the prices meet fits, and what it adds to the reserve is not too
      much for its quotient by the amount. */
  predicate OtherTargetFits(y: nat, exact: ExactRoots, amount: nat) {
    var target := exact.product * exact.price / (S * S);
    target <= MAX && !Overflows(target - y, amount)
  }

  /** The other reserve at which the floored roots meet the primary price. */
  function OtherTarget(roots: Roots): nat {
    MulMono(0, roots.k, roots.price);
    FloorDiv(roots.k * roots.price, S)
  }

  /** And the base reserve. */
  function BaseTarget(roots: Roots): nat
    requires roots.price > 0
  {
    FloorDiv(roots.k * S, roots.price)
  }

  lemma DeltaWithin(root: nat, price: nat, exact: nat, y: nat, amount: nat)
    requires root * S <= exact && exact * price / (S * S) <= MAX && y <= MAX
    requires !Overflows(exact * price / (S * S) - y, amount)
    ensures root * price / S <= MAX && !Overflows(root * price / S - y, amount)
  {
    FloorBounds(root * price, S);
    FloorBounds(exact * price, S * S);
    MulMono(root * S, exact, price);
    assert (root * S) * price == (root * price) * S;
    MulMono(root * price / S * S, root * price, S);
    var target := root * price / S;
    assert (target * S) * S == target * (S * S);
    var bound := exact * price / (S * S);
    if target > bound { MulMono(bound + 1, target, S * S); }
  }

  lemma OtherInputRouted(y: nat, roots: Roots, exact: ExactRoots, slack: nat, amount: nat, delta: Fx)
    requires NearRoots(roots, exact, slack) && y <= MAX && 0 < amount <= MAX
    requires OtherTargetFits(y, exact, amount) && delta == Minus(Fit(OtherTarget(roots)), Val(y))
    ensures ReachedByOtherInput(y, exact, slack, amount, Fraction(delta, amount))
  {
    var target, fraction := OtherTarget(roots), Fraction(delta, amount);
    DeltaWithin(roots.k, roots.price, exact.product, y, amount);
    WholeOrDelta(target - y, amount);
    if fraction != S {
      OtherInputReached(y, roots.k, roots.price, exact.product, slack, target, Sent(amount, fraction), amount);
    }
  }

  lemma MarketRootsValues(m: Market)
    requires m.reservesBase <= MAX && m.reservesOther <= MAX && m.primaryPrice >= 0
    ensures MarketRoots(m).k <= MAX && MarketRoots(m).price <= MAX
    ensures SqrtK(m) == Val(MarketRoots(m).k) && Sqrt(m.primaryPrice) == Val(MarketRoots(m).price)
  {
    SqrtKFits(m);
  }

  lemma ProductIs(a: Fixed, b: Fixed, product: nat)
    requires a >= 0 && b >= 0 && product == a * b / S
    ensures Times(Val(a), Val(b)) == Fit(product)
  {
    if product <= MAX { MulIs(a, b, product); }
  }

  lemma QuotientIs(a: Fixed, b: Fixed, quotient: nat)
    requires a >= 0 && b > 0 && quotient == a * S / b
    ensures Over(Val(a), Val(b)) == Fit(quotient)
  {
  }

  /** Two of the deltas are the distances of the other reserve to the product of the floored
      roots, as far as that fits. */
  lemma OtherDeltas(m: Market, target: nat)
    requires m.reservesBase <= MAX && m.reservesOther <= MAX && m.primaryPrice >= 0
    requires target == OtherTarget(MarketRoots(m))
    ensures DeltaBuying(m, WithDesiredInput) == Minus(Fit(target), Val(m.reservesOther))
    ensures DeltaSelling(m, WithDesiredOutput) == Minus(Val(m.reservesOther), Fit(target))
  {
    MarketRootsValues(m);
    ProductIs(MarketRoots(m).k, MarketRoots(m).price, target);
  }

  /** The other two are those of the base reserve to their quotient. */
  lemma BaseDeltas(m: Market, target: nat)
    requires m.reservesBase <= MAX && m.reservesOther <= MAX && m.primaryPrice >= 0
    requires MarketRoots(m).price > 0 && target == BaseTarget(MarketRoots(m))
    ensures DeltaBuying(m, WithDesiredOutput) == Minus(Val(m.reservesBase), Fit(target))
    ensures DeltaSelling(m, WithDesiredInput) == Minus(Fit(target), Val(m.reservesBase))
  {
    MarketRootsValues(m);
    QuotientIs(MarketRoots(m).k, MarketRoots(m).price, target);
  }

  lemma BaseOutputReached(x: nat, root: nat, price: nat, exact: nat, target: nat, routed: int, amount: nat)
    requires root * S <= exact && target * price <= root * S
    requires (x - target) * S < (routed + 1) * S + amount
    ensures ((x - routed - 1) * S - amount) * price <= exact * S
  {
    MulMono((x - routed - 1) * S - amount, target * S, price);
    assert (target * S) * price == (target * price) * S;
    MulMono(target * price, exact, S);
  }

  lemma OtherOutputReached(y: nat, root: nat, price: nat, exact: nat, target: nat, routed: int, amount: nat)
    requires root * S <= exact && target * S <= root * price
    requires (y - target) * S < (routed + 1) * S + amount
    ensures ((y - routed - 1) * S - amount) * S < exact * price
  {
    MulMono((y - routed - 1) * S - amount + 1, root * price, S);
    assert (root * price) * S == (root * S) * price;
    MulMono(root * S, exact, price);
  }

  lemma BaseInputReached(x: nat, root: nat, price: nat, exact: nat, slack: nat, target: nat, routed: int, amount: nat)
    requires exact <= root * S + slack && root * S < target * price + price
    requires (target - x) * S < (routed + 1) * S + amount
    ensures exact * S < ((x + routed + 2) * S + amount) * price + slack * S
  {
    MulMono((target + 1) * S, (x + routed + 2) * S + amount, price);
    assert ((target + 1) * S) * price == ((target + 1) * price) * S;
    TimesSum(target, 1, price);
    MulMono(root * S + 1, (target + 1) * price, S);
  }

  /** Buying an exact output: at the base reserve after the output, less one more unit and
      `amount / S`. */
  predicate ReachedByBaseOutput(x: nat, exact: ExactRoots, amount: nat, fraction: nat) {
    fraction == S || ((x - Sent(amount, fraction) - 1) * S - amount) * exact.price <= exact.product * S
  }

  /** Selling for an exact output: at the other reserve after it, less the same. */
  predicate ReachedByOtherOutput(y: nat, exact: ExactRoots, amount: nat, fraction: nat) {
    fraction == S || ((y - Sent(amount, fraction) - 1) * S - amount) * S < exact.product * exact.price
  }

  /** Selling an exact input: at the base reserve after the input, two more units, `amount / S`,
      and what the floored root of the product can drop. */
  predicate ReachedByBaseInput(x: nat, exact: ExactRoots, slack: nat, amount: nat, fraction: nat) {
    fraction == S
    || exact.product * S < ((x + Sent(amount, fraction) + 2) * S + amount) * exact.price + slack * S
  }

  /** The base reserve at which the prices meet fits, and so does the quotient. */
  predicate BaseTargetFits(x: nat, exact: ExactRoots, amount: nat) {
    && exact.price > 0
    && var target := exact.product / exact.price;
    target <= MAX && !Overflows(target - x, amount)
  }

  lemma BaseOutputRouted(x: nat, roots: Roots, exact: ExactRoots, slack: nat, amount: nat, delta: Fx)
    requires NearRoots(roots, exact, slack) && roots.price > 0 && x <= MAX && 0 < amount <= MAX && !Overflows(x, amount)
    requires delta == Minus(Val(x), Fit(BaseTarget(roots)))
    ensures ReachedByBaseOutput(x, exact, amount, Fraction(delta, amount))
  {
    var target, fraction := BaseTarget(roots), Fraction(delta, amount);
    if target <= MAX {
      WholeOrDelta(x - target, amount);
    }
    if fraction != S {
      BaseOutputReached(x, roots.k, roots.price, exact.product, target, Sent(amount, fraction), amount);
    }
  }

  lemma OtherOutputRouted(y: nat, roots: Roots, exact: ExactRoots, slack: nat, amount: nat, delta: Fx)
    requires NearRoots(roots, exact, slack) && y <= MAX && 0 < amount <= MAX && !Overflows(y, amount)
    requires delta == Minus(Val(y), Fit(OtherTarget(roots)))
    ensures ReachedByOtherOutput(y, exact, amount, Fraction(delta, amount))
  {
    var target, fraction := OtherTarget(roots), Fraction(delta, amount);
    if target <= MAX {
      WholeOrDelta(y - target, amount);
    }
    if fraction != S {
      OtherOutputReached(y, roots.k, roots.price, exact.product, target, Sent(amount, fraction), amount);
    }
  }

  lemma BaseInputRouted(x: nat, roots: Roots, exact: ExactRoots, slack: nat, amount: nat, delta: Fx)
    requires NearRoots(roots, exact, slack) && roots.price > 0 && x <= MAX && 0 < amount <= MAX
    requires BaseTargetFits(x, exact, amount) && delta == Minus(Fit(BaseTarget(roots)), Val(x))
    ensures ReachedByBaseInput(x, exact, slack, amount, Fraction(delta, amount))
  {
    var target, fraction := BaseTarget(roots), Fraction(delta, amount);
    FloorMono(roots.k * S, exact.product, roots.price);
    WholeOrDelta(target - x, amount);
    if fraction != S {
      BaseInputReached(x, roots.k, roots.price, exact.product, slack, target, Sent(amount, fraction), amount);
    }
  }

  lemma PositiveRoot(p: Fixed)
    requires p > 0
    ensures Sqrt(p).v > 0
  {
  }

  lemma TargetNotOverpriced(m: Market, roots: Roots)
    requires RootsOf(m, roots)
    ensures NotOverpriced(m, OtherTarget(roots))
  {
    PriceTarget(m.reservesBase, m.reservesOther, m.primaryPrice, roots.k, roots.price, OtherTarget(roots));
  }

  /** Buying the base asset for an exact input: the input routed to the secondary market
      never pushes its marginal price above the primary price, in spite of all floors.
      With `y'` the other reserve after the input and `k` the product, the marginal
      price is `y' * y' / k`. */
  lemma SecondaryNotOverpriced(m: Market, amount: nat)
    requires Less(SecondaryPrice(m), Val(m.primaryPrice)) && amount <= MAX && m.reservesBase > 0
    ensures NotOverpriced(m, m.reservesOther + Sent(amount, SecondaryBuying(m, WithDesiredInput, amount)))
  {
    var y, delta, target := m.reservesOther, DeltaBuying(m, WithDesiredInput), OtherTarget(MarketRoots(m));
    var routed := Sent(amount, Fraction(delta, amount));
    if delta.Val? && delta.v > 0 && amount > 0 {
      FractionRouted(delta.v, amount);
      OtherDeltas(m, target);
      MarketRootsAre(m);
      TargetNotOverpriced(m, MarketRoots(m));
      NotOverpricedBelow(m, y + routed, target);
    } else {
      NothingRouted(delta, amount);
      AtStart(m);
    }
  }

  /** Buying for an exact input: unless a number on the way overflows, the whole trade goes to
      the secondary market, or its marginal price reaches the primary one. */
  lemma SecondaryReachesPrice(m: Market, amount: nat)
    requires Less(SecondaryPrice(m), Val(m.primaryPrice)) && 0 < amount <= MAX
    ensures m.primaryPrice >= 0
    ensures OtherTargetFits(m.reservesOther, RootsAt(m), amount) ==>
            ReachedByOtherInput(m.reservesOther, RootsAt(m), SlackBound(m), amount,
                                SecondaryBuying(m, WithDesiredInput, amount))
  {
    if OtherTargetFits(m.reservesOther, RootsAt(m), amount) {
      MarketRootsNear(m);
      OtherDeltas(m, OtherTarget(MarketRoots(m)));
      OtherInputRouted(m.reservesOther, MarketRoots(m), RootsAt(m), SlackBound(m), amount,
                       DeltaBuying(m, WithDesiredInput));
    }
  }

  /** Buying an exact output. */
  lemma SecondaryReachesPriceForOutput(m: Market, amount: nat)
    requires Less(SecondaryPrice(m), Val(m.primaryPrice)) && 0 < amount <= MAX && !Overflows(m.reservesBase, amount)
    ensures m.primaryPrice >= 0
    ensures ReachedByBaseOutput(m.reservesBase, RootsAt(m), amount, SecondaryBuying(m, WithDesiredOutput, amount))
  {
    MarketRootsNear(m);
    PositiveRoot(m.primaryPrice);
    BaseDeltas(m, BaseTarget(MarketRoots(m)));
    BaseOutputRouted(m.reservesBase, MarketRoots(m), RootsAt(m), SlackBound(m), amount,
                     DeltaBuying(m, WithDesiredOutput));
  }

  /** Selling an exact input: its marginal price falls to the primary one. */
  lemma SecondaryFallsToPrice(m: Market, amount: nat)
    requires Less(Val(m.primaryPrice), SecondaryPrice(m)) && 0 < amount <= MAX && m.primaryPrice > 0
    requires BaseTargetFits(m.reservesBase, RootsAt(m), amount)
    ensures ReachedByBaseInput(m.reservesBase, RootsAt(m), SlackBound(m), amount,
                               SecondarySelling(m, WithDesiredInput, amount))
  {
    MarketRootsNear(m);
    PositiveRoot(m.primaryPrice);
    BaseDeltas(m, BaseTarget(MarketRoots(m)));
    BaseInputRouted(m.reservesBase, MarketRoots(m), RootsAt(m), SlackBound(m), amount,
                    DeltaSelling(m, WithDesiredInput));
  }

  /** Selling for an exact output, before the primary market's share is cut. */
  lemma SecondaryFallsToPriceForOutput(m: Market, amount: nat)
    requires Less(Val(m.primaryPrice), SecondaryPrice(m)) && 0 < amount <= MAX && m.primaryPrice >= 0
    requires !Overflows(m.reservesOther, amount)
    ensures ReachedByOtherOutput(m.reservesOther, RootsAt(m), amount, SecondarySelling(m, WithDesiredOutput, amount))
  {
    MarketRootsNear(m);
    OtherDeltas(m, OtherTarget(MarketRoots(m)));
    OtherOutputRouted(m.reservesOther, MarketRoots(m), RootsAt(m), SlackBound(m), amount,
                      DeltaSelling(m, WithDesiredOutput));
  }

  lemma ScaledRoots(n: nat, root: nat)
    requires root * root == n
    ensures ISqrt(n) == root
  {
    RootUnique(n, root);
  }

  lemma ThousandApart(m: Market)
    requires m == Market(100 * S, 10_000 * S, 121 * S)
    ensures Less(SecondaryPrice(m), Val(m.primaryPrice)) && DeltaBuying(m, WithDesiredInput) == Val(1000 * S)
  {
    ScaledRoots(100 * S * S, 10 * S);
    ScaledRoots(10_000 * S * S, 100 * S);
    ScaledRoots(121 * S * S, 11 * S);
    assert Sqrt(100 * S) == Val(10 * S) && Sqrt(10_000 * S) == Val(100 * S) && Sqrt(121 * S) == Val(11 * S);
    assert Mul(10 * S, 100 * S) == Val(1000 * S);
    assert Mul(1000 * S, 11 * S) == Val(11_000 * S);
    assert Div(10_000 * S, 100 * S) == Val(100 * S);
  }

  lemma ThousandMissed(m: Market)
    requires m == Market(100 * S, 10_000 * S, 121 * S)
    ensures !ReachedByOtherInput(m.reservesOther, RootsAt(m), SlackBound(m), 5, 0)
  {
    ScaledRoots(121 * S * S, 11 * S);
    ScaledRoots((m.reservesBase * m.reservesOther) * (S * S), 1000 * S * S);
    assert RootsAt(m) == ExactRoots(1000 * S * S, 11 * S);
  }

  /** Half of two thousand goes to a market that sells at 100 while the primary one sells at 121.
      Of five base units nothing does, and the price is not reached: the quotient of the delta,
      a thousand, and five base units does not fit. */
  lemma SmallTradesMiss()
    ensures var m := Market(100 * S, 10_000 * S, 121 * S);
            && Less(SecondaryPrice(m), Val(m.primaryPrice)) && DeltaBuying(m, WithDesiredInput) == Val(1000 * S)
            && SecondaryBuying(m, WithDesiredInput, 2000 * S) == S / 2
            && Overflows(1000 * S, 5) && SecondaryBuying(m, WithDesiredInput, 5) == 0
            && !ReachedByOtherInput(m.reservesOther, RootsAt(m), SlackBound(m), 5, 0)
  {
    var m := Market(100 * S, 10_000 * S, 121 * S);
    ThousandApart(m);
    ThousandMissed(m);
    assert Div(1000 * S, 2000 * S) == Val(S / 2);
    assert Div(1000 * S, 5) == Fail;
  }

  // ----- margins of the price that make the deltas positive

  /** Buying for an exact input: with some `t` below the scaled root of the product and some
      `q` below that of the price, their product reaches the next unit of the other reserve,
      by what flooring the roots can drop. */
  predicate BuyingInputMargin(m: Market, t: nat, q: nat) {
    && t * t <= (m.reservesBase * m.reservesOther) * (S * S) && q * q <= m.primaryPrice * S
    && (m.reservesOther + 1) * (S * S) <= (t - SlackBound(m)) * q
  }

  lemma PriceRootAtLeast(root: nat, p: nat, q: nat)
    requires q * q <= p * S < (root + 1) * (root + 1)
    ensures q <= root
  {
    if q > root { SquareLe(root + 1, q); }
  }

  lemma ProductReaches(y: nat, k: nat, root: nat, g: int, q: nat)
    requires g <= k * S && q <= root && (y + 1) * (S * S) <= g * q
    ensures (y + 1) * S <= k * root
  {
    MulMono(g, k * S, q);
    assert (k * S) * q == (k * q) * S && (y + 1) * (S * S) == ((y + 1) * S) * S;
    MulMono(q, root, k);
  }

  lemma BuyingInputReaches(m: Market, roots: Roots, t: nat, q: nat)
    requires RootsOf(m, roots) && roots.slack <= SlackBound(m)
    ensures BuyingInputMargin(m, t, q) ==> (m.reservesOther + 1) * S <= roots.k * roots.price
  {
    if BuyingInputMargin(m, t, q) {
      RootReaches((m.reservesBase * m.reservesOther) * (S * S), roots.k * S + roots.slack, t);
      PriceRootAtLeast(roots.price, m.primaryPrice, q);
      ProductReaches(m.reservesOther, roots.k, roots.price, t - SlackBound(m), q);
    }
  }

  /** Then the delta is positive. */
  lemma BuyingInputMarginSuffices(m: Market, t: nat, q: nat)
    requires m.reservesBase <= MAX && m.reservesOther <= MAX && m.primaryPrice >= 0
    requires DeltaBuying(m, WithDesiredInput).Val?
    ensures BuyingInputMargin(m, t, q) ==> DeltaBuying(m, WithDesiredInput).v > 0
  {
    MarketRootsAre(m);
    MarketRootsAtMost(m);
    BuyingInputReaches(m, MarketRoots(m), t, q);
    BuyingInputPositive(m);
  }

  /** Buying an exact output: the price exceeds `y / x`, in scaled units, by what flooring its
      root can drop. */
  predicate BuyingOutputMargin(m: Market) {
    && m.primaryPrice >= 0 && m.reservesBase > 0
    && m.reservesBase * (m.primaryPrice * S) >=
         m.reservesOther * (S * S) + 2 * ((m.reservesBase + m.reservesOther) * S) + m.reservesBase
  }

  lemma SquareAbove(x: nat, q: nat, root: nat)
    requires x > 0 && q < (root + 1) * (root + 1)
    ensures (x * x) * q < (x * (root + 1)) * (x * (root + 1))
  {
    Regroup(x, root + 1, x, root + 1);
    MulMono(q + 1, (root + 1) * (root + 1), x * x);
    TimesSum(q, 1, x * x);
    MulMono(1, x, x);
  }

  lemma SquareWithin(x: nat, q: nat, u: nat, a: nat, b: nat)
    requires a * a <= x * u && a <= b && u + 2 * b + x <= x * q
    ensures (a + x) * (a + x) <= (x * x) * q
  {
    assert (a + x) * (a + x) == a * a + 2 * (a * x) + x * x;
    MulMono(a, b, x);
    MulMono(u + 2 * b + x, x * q, x);
    assert (u + 2 * b + x) * x == x * u + 2 * (b * x) + x * x;
    assert (x * q) * x == (x * x) * q;
  }

  /** A number stays below `x` roots of `q`, if `q` is large enough by what flooring its root drops. */
  lemma BelowRoots(x: nat, q: nat, root: nat, u: nat, a: nat, b: nat)
    requires x > 0 && q < (root + 1) * (root + 1)
    requires a * a <= x * u && a <= b && u + 2 * b + x <= x * q
    ensures a < x * root
  {
    SquareAbove(x, q, root);
    SquareWithin(x, q, u, a, b);
    if x * root <= a {
      TimesSum(root, 1, x);
      SquareLe(x * (root + 1), a + x);
    }
  }

  lemma ScaledRoot(k: nat, x: nat, y: nat)
    requires k * k <= x * y && k <= x + y
    ensures (k * S) * (k * S) <= x * (y * (S * S)) && k * S <= (x + y) * S
  {
    Regroup(k, S, k, S);
    MulMono(k * k, x * y, S * S);
    assert (x * y) * (S * S) == x * (y * (S * S));
    MulMono(k, x + y, S);
  }

  /** At such a price the delta is positive. */
  lemma BuyingOutputMarginSuffices(m: Market)
    requires m.reservesBase <= MAX && m.reservesOther <= MAX && BuyingOutputMargin(m)
    requires DeltaBuying(m, WithDesiredOutput).Val?
    ensures DeltaBuying(m, WithDesiredOutput).v > 0
  {
    var x, y, roots := m.reservesBase, m.reservesOther, MarketRoots(m);
    MarketRootsAre(m);
    MarketRootsAtMost(m);
    SqrtKBelow(m);
    ScaledRoot(roots.k, x, y);
    BelowRoots(x, m.primaryPrice * S, roots.price, y * (S * S), roots.k * S, (x + y) * S);
    BuyingOutputPositive(m);
  }

  /** Selling an exact input: with some `t` below the scaled root of the product and some `q`
      above that of the price, `t` reaches the next unit of the base reserve at `q`, by what
      flooring the roots can drop. */
  predicate SellingInputMargin(m: Market, t: nat, q: nat) {
    && t * t <= (m.reservesBase * m.reservesOther) * (S * S) && m.primaryPrice * S <= q * q
    && (m.reservesBase + 1) * q <= t - SlackBound(m)
  }

  lemma PriceRootAtMost(root: nat, p: nat, q: nat)
    requires root * root <= p * S <= q * q
    ensures root <= q
  {
    if root > q { SquareLe(q + 1, root); }
  }

  lemma QuotientReaches(x: nat, a: nat, root: nat, g: int, q: nat)
    requires g <= a && root <= q && (x + 1) * q <= g
    ensures (x + 1) * root <= a
  {
    MulMono(root, q, x + 1);
  }

  lemma SellingInputReaches(m: Market, roots: Roots, t: nat, q: nat)
    requires RootsOf(m, roots) && roots.slack <= SlackBound(m)
    ensures SellingInputMargin(m, t, q) ==> (m.reservesBase + 1) * roots.price <= roots.k * S
  {
    if SellingInputMargin(m, t, q) {
      RootReaches((m.reservesBase * m.reservesOther) * (S * S), roots.k * S + roots.slack, t);
      PriceRootAtMost(roots.price, m.primaryPrice, q);
      QuotientReaches(m.reservesBase, roots.k * S, roots.price, t - SlackBound(m), q);
    }
  }

  /** Then the delta is positive. */
  lemma SellingInputMarginSuffices(m: Market, t: nat, q: nat)
    requires m.reservesBase <= MAX && m.reservesOther <= MAX && m.primaryPrice >= 0
    requires DeltaSelling(m, WithDesiredInput).Val?
    ensures SellingInputMargin(m, t, q) ==> DeltaSelling(m, WithDesiredInput).v > 0
  {
    MarketRootsAre(m);
    MarketRootsAtMost(m);
    SellingInputReaches(m, MarketRoots(m), t, q);
    SellingInputPositive(m);
  }
}
