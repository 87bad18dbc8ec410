/** Bonding curve pricing: the price of the main asset rises linearly with its
    issuance, so a purchase costs an integral, and a payment buys the positive root of
    a quadratic. */
module BondingCurve {
  import opened FixedPoint
  import opened Sums
  import opened Swaps

  /** The stored parameters: initial price, price change step and rate, and the fraction
      of the buy price at which the pool buys back. */
  datatype Curve = Curve(initialPrice: Fixed, priceChangeStep: Fixed, priceChangeRate: Fixed, sellCoefficient: Fixed)

  const DEFAULTS: Curve := Curve(99_300_000_000_000_000_000, 5000 * S, 100 * S, 800_000_000_000_000_000)

  datatype SwapKind = Buy | Sell

  predicate Sensible(curve: Curve) {
    0 <= curve.initialPrice && 0 <= curve.priceChangeStep && 0 <= curve.priceChangeRate && 0 <= curve.sellCoefficient
  }

  // ----- the price of a quantity

  function TwiceStepRate(curve: Curve): Fx {
    var doubled :- Mul(2 * S, curve.priceChangeStep);
    Mul(doubled, curve.priceChangeRate)
  }

  /** The value of the whole issuance `z`: the integral of the price from nothing to `z`. */
  function Worth(curve: Curve, z: Fixed): Fx {
    var slope :- TwiceStepRate(curve);
    var ratio :- Div(z, slope);
    var price :- Add(ratio, curve.initialPrice);
    Mul(price, z)
  }

  function PriceForMainAsset(curve: Curve, issuance: nat, quantity: nat, kind: SwapKind): Fx {
    var q :- FromBalance(issuance);
    var d :- FromBalance(quantity);
    var q' :- if kind.Buy? then Add(q, d) else Sub(q, d);
    var to :- Worth(curve, q');
    var from :- Worth(curve, q);
    if kind.Buy? then Sub(to, from)
    else
      var difference :- Sub(from, to);
      Mul(curve.sellCoefficient, difference)
  }

  /** The worth of an issuance never falls as the issuance grows, and it exists for
      every smaller issuance. */
  lemma WorthRises(curve: Curve, z: Fixed, z': Fixed)
    requires Sensible(curve) && 0 <= z <= z' && Worth(curve, z').Val?
    ensures Worth(curve, z).Val? && 0 <= Worth(curve, z).v <= Worth(curve, z').v
  {
    var slope := TwiceStepRate(curve).v;
    assert slope > 0;
    FloorMono(z * S, z' * S, slope);
    FloorMono(0, z * S, slope);
    FloorMono(0, 0, slope);
    var p, p' := z * S / slope + curve.initialPrice, z' * S / slope + curve.initialPrice;
    ProductLe(p, p', z, z');
    FloorMono(p * z, p' * z', S);
    FloorMono(0, p * z, S);
  }

  // ----- path independence

  function BaseWorth(curve: Curve, issuance: nat): int {
    if issuance <= MAX then Worth(curve, issuance).GetOr(0) else 0
  }

  lemma BuyIs(curve: Curve, issuance: nat, q: nat)
    requires Sensible(curve)
    ensures PriceForMainAsset(curve, issuance, q, Buy) ==
              if issuance + q <= MAX && Worth(curve, issuance + q).Val?
              then Val(Worth(curve, issuance + q).v - BaseWorth(curve, issuance)) else Fail
    ensures PriceForMainAsset(curve, issuance, q, Buy).Val? ==>
              Worth(curve, issuance).Val? && PriceForMainAsset(curve, issuance, q, Buy).v >= 0
  {
    if issuance + q <= MAX && Worth(curve, issuance + q).Val? {
      WorthRises(curve, issuance, issuance + q);
    }
  }

  /** A purchase exists exactly when the issuance it leads to has a worth. */
  predicate Reachable(curve: Curve, issuance: nat) {
    issuance <= MAX && Worth(curve, issuance).Val?
  }

  /** The price of a purchase as reached from the worths of two issuances. */
  ghost predicate CostsBetween(curve: Curve, issuance: nat, issuance': nat, price: Fx) {
    && (price.Val? <==> Reachable(curve, issuance'))
    && (price.Val? ==> price.v >= 0 && BaseWorth(curve, issuance) + price.v == BaseWorth(curve, issuance'))
  }

  lemma BuyCosts(curve: Curve, issuance: nat, q: nat)
    requires Sensible(curve)
    ensures CostsBetween(curve, issuance, issuance + q, PriceForMainAsset(curve, issuance, q, Buy))
  {
    BuyIs(curve, issuance, q);
  }

  lemma ReachableBelow(curve: Curve, issuance: nat, q: nat)
    requires Sensible(curve) && Reachable(curve, issuance + q)
    ensures Reachable(curve, issuance)
  {
    WorthRises(curve, issuance, issuance + q);
  }

  lemma Telescoped(curve: Curve, i0: nat, i1: nat, i2: nat, first: Fx, second: Fx, whole: Fx)
    requires Sensible(curve) && i1 <= i2
    requires CostsBetween(curve, i0, i1, first) && CostsBetween(curve, i1, i2, second) &&
             CostsBetween(curve, i0, i2, whole)
    ensures whole.Val? <==> first.Val? && second.Val?
    ensures whole.Val? ==> first.v >= 0 && second.v >= 0 && whole.v == first.v + second.v
  {
    if Reachable(curve, i2) { ReachableBelow(curve, i1, i2 - i1); }
  }

  /** Buying in two steps succeeds exactly when buying at once does, and costs exactly
      the same, with all the rounding. */
  lemma BuyingInSteps(curve: Curve, issuance: nat, q1: nat, q2: nat)
    requires Sensible(curve)
    ensures var first, second := PriceForMainAsset(curve, issuance, q1, Buy),
            PriceForMainAsset(curve, issuance + q1, q2, Buy);
            var whole := PriceForMainAsset(curve, issuance, q1 + q2, Buy);
            && (whole.Val? <==> first.Val? && second.Val?)
            && (whole.Val? ==> first.v >= 0 && second.v >= 0 && whole.v == first.v + second.v)
  {
    BuyCosts(curve, issuance, q1);
    BuyCosts(curve, issuance + q1, q2);
    BuyCosts(curve, issuance, q1 + q2);
    Telescoped(curve, issuance, issuance + q1, issuance + q1 + q2, PriceForMainAsset(curve, issuance, q1, Buy),
               PriceForMainAsset(curve, issuance + q1, q2, Buy), PriceForMainAsset(curve, issuance, q1 + q2, Buy));
  }

  /** Selling is the floored fraction of what the sold quantity is worth. */
  lemma SellIs(curve: Curve, issuance: nat, q: nat)
    requires Sensible(curve) && q <= issuance <= MAX && Worth(curve, issuance).Val?
    ensures Worth(curve, issuance - q).Val?
    ensures var worth := Worth(curve, issuance).v - Worth(curve, issuance - q).v;
            0 <= worth <= MAX && PriceForMainAsset(curve, issuance, q, Sell) == Mul(curve.sellCoefficient, worth)
  {
    WorthRises(curve, issuance - q, issuance);
  }

  lemma FractionFits(c: Fixed, worth: Fixed)
    requires 0 <= c <= S && 0 <= worth
    ensures Mul(c, worth).Val? && 0 <= Mul(c, worth).v <= worth
  {
    MulMono(c, S, worth);
    FloorMono(c * worth, S * worth, S);
    FloorMono(0, c * worth, S);
  }

  /** Selling back what was just bought returns at most the sell coefficient times what
      it cost. */
  lemma SellingBack(curve: Curve, issuance: nat, q: nat)
    requires Sensible(curve) && curve.sellCoefficient <= S
    requires PriceForMainAsset(curve, issuance, q, Buy).Val?
    ensures var cost, back := PriceForMainAsset(curve, issuance, q, Buy).v,
            PriceForMainAsset(curve, issuance + q, q, Sell);
            back.Val? && 0 <= back.v && back.v * S <= curve.sellCoefficient * cost && back.v <= cost
  {
    BuyIs(curve, issuance, q);
    SellIs(curve, issuance + q, q);
    var cost := PriceForMainAsset(curve, issuance, q, Buy).v;
    FractionFits(curve.sellCoefficient, cost);
  }

  /** The proceeds of earlier sales and of one more. */
  function AndThen(proceeds: Option<int>, last: Fx): Option<int> {
    match (proceeds, last)
    case (Some(before), Val(price)) => Some(before + price)
    case _ => None
  }

  /** The proceeds of selling the quantities one after the other, at the price that a given
      issuance sets for a quantity. */
  function Proceeds(sell: (nat, nat) -> Fx, issuance: nat, quantities: seq<nat>): Option<int>
    requires Sum(quantities) <= issuance
  {
    if quantities == [] then Some(0)
    else
      var before, last := quantities[..|quantities| - 1], quantities[|quantities| - 1];
      AndThen(Proceeds(sell, issuance, before), sell(issuance - Sum(before), last))
  }

  function SellPrice(curve: Curve): (nat, nat) -> Fx {
    (issuance: nat, q: nat) => PriceForMainAsset(curve, issuance, q, Sell)
  }

  /** The parts of a sale, together, are within `m - 1` base units of the whole. */
  ghost predicate PartsNearly(whole: Fx, parts: Option<int>, m: nat) {
    whole.Val? ==> parts.Some? && whole.v - (m - 1) <= parts.value <= whole.v
  }

  /** The floored fraction of a worth. */
  function FractionOf(c: Fixed, worth: int): Fx {
    if 0 <= worth <= MAX then Mul(c, worth) else Fail
  }

  /** Flooring two parts of a product separately loses at most one. */
  lemma SplitFloor(c: Fixed, a: Fixed, b: Fixed)
    requires 0 <= c && 0 <= a && 0 <= b && a + b <= MAX && Mul(c, a + b).Val?
    ensures Mul(c, a).Val? && Mul(c, b).Val?
    ensures Mul(c, a + b).v - 1 <= Mul(c, a).v + Mul(c, b).v <= Mul(c, a + b).v
  {
    assert c * (a + b) == c * a + c * b;
    FloorMono(0, c * a, S);
    FloorMono(0, c * b, S);
    FloorMono(c * a, c * (a + b), S);
    FloorMono(c * b, c * (a + b), S);
  }

  /** One more sale loses at most one more base unit. */
  lemma OneMorePart(c: Fixed, i0: Fixed, i1: Fixed, i2: Fixed, parts: Option<int>, m: nat)
    requires 0 <= c && 0 <= i2 <= i1 <= i0 && PartsNearly(FractionOf(c, i0 - i1), parts, m)
    ensures PartsNearly(FractionOf(c, i0 - i2), AndThen(parts, FractionOf(c, i1 - i2)), m + 1)
  {
    if FractionOf(c, i0 - i2).Val? { SplitFloor(c, i0 - i1, i1 - i2); }
  }

  function WorthOf(curve: Curve): nat -> int {
    (i: nat) => BaseWorth(curve, i)
  }

  ghost predicate RisingWorth(worth: nat -> int, issuance: nat) {
    (forall i: nat, j: nat :: i <= j <= issuance ==> 0 <= worth(i) <= worth(j)) && worth(issuance) <= MAX
  }

  ghost predicate PaysAt(sell: (nat, nat) -> Fx, c: Fixed, worth: nat -> int, issuance: nat, q: nat)
    requires q <= issuance
  {
    sell(issuance, q) == FractionOf(c, worth(issuance) - worth(issuance - q))
  }

  /** Up to the issuance, a sale pays the floored fraction of what is sold is worth. */
  ghost predicate PaysFraction(sell: (nat, nat) -> Fx, c: Fixed, worth: nat -> int, issuance: nat) {
    forall i: nat, q: nat :: q <= i <= issuance ==> PaysAt(sell, c, worth, i, q)
  }

  lemma {:induction false} ProceedsNearly(sell: (nat, nat) -> Fx, c: Fixed, worth: nat -> int, issuance: nat,
                                          quantities: seq<nat>)
    requires 0 <= c && RisingWorth(worth, issuance) && PaysFraction(sell, c, worth, issuance)
    requires quantities != [] && Sum(quantities) <= issuance
    ensures PartsNearly(sell(issuance, Sum(quantities)), Proceeds(sell, issuance, quantities), |quantities|)
  {
    var before, last := quantities[..|quantities| - 1], quantities[|quantities| - 1];
    var left := issuance - Sum(before);
    assert PaysAt(sell, c, worth, left, last) && PaysAt(sell, c, worth, issuance, Sum(quantities));
    if before == [] {
      assert Proceeds(sell, issuance, before) == Some(0);
    } else {
      assert PaysAt(sell, c, worth, issuance, Sum(before));
      ProceedsNearly(sell, c, worth, issuance, before);
      OneMorePart(c, worth(issuance), worth(left), worth(left - last), Proceeds(sell, issuance, before), |before|);
    }
  }

  lemma CurveRises(curve: Curve, issuance: nat)
    requires Sensible(curve) && Reachable(curve, issuance)
    ensures RisingWorth(WorthOf(curve), issuance)
  {
    forall i: nat, j: nat | i <= j <= issuance
      ensures 0 <= BaseWorth(curve, i) <= BaseWorth(curve, j)
    {
      WorthRises(curve, j, issuance);
      WorthRises(curve, i, j);
    }
  }

  lemma SellsFor(curve: Curve, issuance: nat, q: nat)
    requires Sensible(curve) && q <= issuance && Reachable(curve, issuance)
    ensures PriceForMainAsset(curve, issuance, q, Sell) ==
            FractionOf(curve.sellCoefficient, BaseWorth(curve, issuance) - BaseWorth(curve, issuance - q))
  {
    SellIs(curve, issuance, q);
  }

  lemma PaysFractionAt(curve: Curve, issuance: nat, i: nat, q: nat)
    requires Sensible(curve) && q <= i <= issuance && Reachable(curve, issuance)
    ensures PaysAt(SellPrice(curve), curve.sellCoefficient, WorthOf(curve), i, q)
  {
    ReachableBelow(curve, i, issuance - i);
    SellsFor(curve, i, q);
  }

  lemma CurvePaysFraction(curve: Curve, issuance: nat)
    requires Sensible(curve) && Reachable(curve, issuance)
    ensures PaysFraction(SellPrice(curve), curve.sellCoefficient, WorthOf(curve), issuance)
  {
    var sell, worth := SellPrice(curve), WorthOf(curve);
    forall i: nat, q: nat | q <= i <= issuance
      ensures PaysAt(sell, curve.sellCoefficient, worth, i, q)
    {
      PaysFractionAt(curve, issuance, i, q);
    }
  }

  lemma SaleReachable(curve: Curve, issuance: nat, q: nat)
    requires Sensible(curve) && PriceForMainAsset(curve, issuance, q, Sell).Val?
    ensures Reachable(curve, issuance)
  {
  }

  /** Splitting a sale into `m` parts loses at most `m - 1` base units, and never gains. */
  lemma SellingInParts(curve: Curve, issuance: nat, quantities: seq<nat>)
    requires Sensible(curve) && quantities != [] && Sum(quantities) <= issuance
    ensures PartsNearly(PriceForMainAsset(curve, issuance, Sum(quantities), Sell),
                        Proceeds(SellPrice(curve), issuance, quantities), |quantities|)
  {
    if PriceForMainAsset(curve, issuance, Sum(quantities), Sell).Val? {
      SaleReachable(curve, issuance, Sum(quantities));
      CurveRises(curve, issuance);
      CurvePaysFraction(curve, issuance);
      ProceedsNearly(SellPrice(curve), curve.sellCoefficient, WorthOf(curve), issuance, quantities);
    }
  }

  // ----- the quantity for a price

  /** Step times rate, and that times the initial price. */
  function StepRate(curve: Curve): Fx {
    Mul(curve.priceChangeStep, curve.priceChangeRate)
  }

  function Offset(curve: Curve): Fx {
    var stepRate :- StepRate(curve);
    Mul(stepRate, curve.initialPrice)
  }

  function BuyRadicand(curve: Curve, q: Fixed, payment: Fixed): Fx {
    var stepRate :- StepRate(curve);
    var offset :- Offset(curve);
    var squared :- Mul(offset, curve.initialPrice);
    var qSquared :- Mul(q, q);
    var doubledQ :- Mul(2 * S, q);
    var termA :- Mul(doubledQ, offset);
    var doubledPayment :- Mul(2 * S, payment);
    var inner :- Add(squared, doubledPayment);
    var termB :- Mul(stepRate, inner);
    var sum :- Add(qSquared, termA);
    Add(sum, termB)
  }

  function SellRadicand(curve: Curve, q: Fixed, price: Fixed): Fx {
    var stepRate :- StepRate(curve);
    var scaledQ :- Mul(q, curve.sellCoefficient);
    var ratio :- Div(scaledQ, stepRate);
    var initial :- Mul(curve.initialPrice, curve.sellCoefficient);
    var termA :- Add(ratio, initial);
    var squared :- Mul(termA, termA);
    var doubled :- Mul(2 * S, curve.sellCoefficient);
    var scaledPrice :- Mul(doubled, price);
    var termB :- Div(scaledPrice, stepRate);
    Sub(squared, termB)
  }

  function PriceForCollateralAsset(curve: Curve, issuance: nat, quantity: nat, kind: SwapKind): Fx {
    var q :- FromBalance(issuance);
    var price :- FromBalance(quantity);
    var stepRate :- StepRate(curve);
    var offset :- Offset(curve);
    if kind.Buy? then
      var radicand :- BuyRadicand(curve, q, price);
      var root :- Sqrt(radicand);
      var reduced :- Sub(root, q);
      Sub(reduced, offset)
    else
      var radicand :- SellRadicand(curve, q, price);
      var root :- Sqrt(radicand);
      var scaled :- Mul(stepRate, root);
      var left :- Div(scaled, curve.sellCoefficient);
      var whole :- Add(q, offset);
      Sub(whole, left)
  }

  /** What flooring the offset drops: zero when the product is exact at 18 digits. */
  function OffsetLoss(curve: Curve): nat
    requires StepRate(curve).Val?
  {
    StepRate(curve).v * curve.initialPrice % S
  }

  predicate Exact(curve: Curve) {
    && StepRate(curve).Val? && Offset(curve).Val?
    && curve.priceChangeStep * curve.priceChangeRate == StepRate(curve).v * S
    && StepRate(curve).v * curve.initialPrice == Offset(curve).v * S
  }

  lemma DefaultsExact()
    ensures Sensible(DEFAULTS) && Exact(DEFAULTS)
    ensures StepRate(DEFAULTS).v == 500_000 * S && Offset(DEFAULTS).v == 49_650_000 * S
  {
  }

  lemma RadicandBelow(issuance: Fixed, C: Fixed, PC: Fixed, squared: Fixed, payment: Fixed, radicand: int)
    requires 0 <= issuance && 0 <= C && 0 <= PC && 0 <= payment
    requires Mul(issuance, issuance).Val? && 2 * issuance <= MAX && Mul(2 * issuance, C).Val?
    requires squared + 2 * payment <= MAX && squared >= 0 && Mul(PC, squared + 2 * payment).Val?
    requires radicand == Mul(issuance, issuance).v + Mul(2 * issuance, C).v + Mul(PC, squared + 2 * payment).v
    ensures radicand * S <= issuance * issuance + 2 * issuance * C + PC * (squared + 2 * payment)
    ensures radicand * S > issuance * issuance + 2 * issuance * C + PC * (squared + 2 * payment) - 3 * S
  {
  }

  /** PC * squared is at most C * C, but for what flooring the offset dropped. */
  lemma SquaredBelow(C: nat, PC: nat, initialPrice: nat, squared: nat, loss: nat)
    requires PC * initialPrice == C * S + loss
    requires squared * S <= C * initialPrice < squared * S + S
    ensures S * (PC * squared) <= S * (C * C) + C * loss
    ensures S * (PC * squared) >= S * (C * C) + C * loss - PC * S
  {
    MulMono(squared * S, C * initialPrice, PC);
    MulMono(C * initialPrice, squared * S + S, PC);
    assert (squared * S) * PC == S * (PC * squared);
    assert (squared * S + S) * PC == S * (PC * squared) + PC * S;
    assert (C * initialPrice) * PC == C * (PC * initialPrice);
    assert C * (C * S + loss) == S * (C * C) + C * loss;
  }

  lemma RootExpanded(Q: int, C: int, q: int, root: int)
    requires q == root - Q - C
    ensures root * root == q * q + 2 * (q * (Q + C)) + Q * Q + 2 * Q * C + C * C
  {
    var w := Q + C;
    assert (q + w) * (q + w) == q * q + 2 * (q * w) + w * w;
    assert w * w == Q * Q + 2 * Q * C + C * C;
  }

  lemma BuyArithmetic(Q: nat, C: nat, PC: nat, squared: nat, P: nat, root: nat, q: int, loss: nat, radicandS: int)
    requires root * root <= radicandS <= Q * Q + 2 * Q * C + PC * (squared + 2 * P)
    requires S * (PC * squared) <= S * (C * C) + C * loss
    requires q == root - Q - C
    ensures S * (q * q + 2 * (q * (Q + C))) <= S * (2 * (PC * P)) + C * loss
  {
    assert PC * (squared + 2 * P) == PC * squared + 2 * (PC * P);
    RootExpanded(Q, C, q, root);
  }

  lemma TightArithmetic(Q: nat, C: nat, PC: nat, squared: nat, P: nat, root: nat, q: int, loss: nat, radicandS: int)
    requires root * root > radicandS > Q * Q + 2 * Q * C + PC * (squared + 2 * P) - 3 * S
    requires S * (PC * squared) >= S * (C * C) + C * loss - PC * S
    requires q == root - Q - C
    ensures q * q + 2 * (q * (Q + C)) > 2 * (PC * P) - PC - 3 * S
  {
    assert PC * (squared + 2 * P) == PC * squared + 2 * (PC * P);
    RootExpanded(Q, C, q, root);
    MulMono(0, C, loss);
  }

  /** How a buy quote comes about: the root of the radicand, less the issuance `Q` and the
      offset `C`, each floor in between bounded on both sides. */
  ghost predicate QuotedByRoot(Q: nat, C: nat, PC: nat, P: nat, loss: nat, q: int, root: nat, squared: nat,
                               radicandS: int) {
    && q == root - Q - C
    && root * root <= radicandS < (root + 1) * (root + 1)
    && Q * Q + 2 * Q * C + PC * (squared + 2 * P) - 3 * S < radicandS <= Q * Q + 2 * Q * C + PC * (squared + 2 * P)
    && S * (C * C) + C * loss - PC * S <= S * (PC * squared) <= S * (C * C) + C * loss
  }

  lemma Doubled(x: Fixed)
    requires Mul(2 * S, x).Val?
    ensures Mul(2 * S, x).v == 2 * x
  {
    assert (2 * S) * x == (2 * x) * S;
  }

  /** How the radicand of a buy quote adds up. */
  ghost predicate RadicandOf(Q: Fixed, C: Fixed, PC: Fixed, P_I: Fixed, P: Fixed, squared: Fixed, radicand: Fixed) {
    && 0 <= C && 0 <= PC && Mul(C, P_I) == Val(squared)
    && Mul(Q, Q).Val? && 2 * Q <= MAX && Mul(2 * Q, C).Val?
    && squared + 2 * P <= MAX && MIN <= squared + 2 * P && Mul(PC, squared + 2 * P).Val?
    && radicand == Mul(Q, Q).v + Mul(2 * Q, C).v + Mul(PC, squared + 2 * P).v
  }

  lemma BuyRadicandIs(curve: Curve, Q: Fixed, P: Fixed)
    requires Sensible(curve) && 0 <= Q && 0 <= P && BuyRadicand(curve, Q, P).Val?
    ensures RadicandOf(Q, Offset(curve).v, StepRate(curve).v, curve.initialPrice, P,
                       Mul(Offset(curve).v, curve.initialPrice).v, BuyRadicand(curve, Q, P).v)
  {
    Doubled(Q);
    Doubled(P);
  }

  lemma RootFacts(Q: Fixed, C: Fixed, PC: Fixed, P_I: Fixed, P: Fixed, loss: nat, root: Fixed, squared: Fixed,
                  radicand: Fixed)
    requires 0 <= Q && 0 <= P_I && 0 <= P && RadicandOf(Q, C, PC, P_I, P, squared, radicand)
    requires PC * P_I == C * S + loss && Sqrt(radicand) == Val(root)
    ensures QuotedByRoot(Q, C, PC, P, loss, root - Q - C, root, squared, radicand * S)
  {
    RadicandBelow(Q, C, PC, squared, P, radicand);
    SquaredBelow(C, PC, P_I, squared, loss);
  }

  lemma BuyQuoteIsRoot(curve: Curve, issuance: nat, payment: nat)
    requires Sensible(curve) && PriceForCollateralAsset(curve, issuance, payment, Buy).Val?
    ensures issuance <= MAX && payment <= MAX && BuyRadicand(curve, issuance, payment).Val?
    ensures Sqrt(BuyRadicand(curve, issuance, payment).v).Val? && Offset(curve).Val?
    ensures PriceForCollateralAsset(curve, issuance, payment, Buy).v ==
            Sqrt(BuyRadicand(curve, issuance, payment).v).v - issuance - Offset(curve).v
  {
  }

  lemma OffsetSplits(curve: Curve)
    requires Sensible(curve) && Offset(curve).Val?
    ensures StepRate(curve).v * curve.initialPrice == Offset(curve).v * S + OffsetLoss(curve)
  {
  }

  lemma QuotedByRootIs(curve: Curve, issuance: nat, payment: nat) returns (root: nat, squared: nat, radicandS: int)
    requires Sensible(curve) && PriceForCollateralAsset(curve, issuance, payment, Buy).Val?
    ensures QuotedByRoot(issuance, Offset(curve).v, StepRate(curve).v, payment, OffsetLoss(curve),
                         PriceForCollateralAsset(curve, issuance, payment, Buy).v, root, squared, radicandS)
  {
    BuyQuoteIsRoot(curve, issuance, payment);
    BuyRadicandIs(curve, issuance, payment);
    OffsetSplits(curve);
    var C, PC := Offset(curve).v, StepRate(curve).v;
    var radicand := BuyRadicand(curve, issuance, payment).v;
    root, squared, radicandS := Sqrt(radicand).v, Mul(C, curve.initialPrice).v, radicand * S;
    RootFacts(issuance, C, PC, curve.initialPrice, payment, OffsetLoss(curve), root, squared, radicand);
  }

  /** The exact integral over the quantity is at most the payment, but for the loss, and over
      one base unit more it is above the payment, but for the units that the floors drop. */
  ghost predicate NearIntegral(Q: nat, C: nat, PC: nat, P: nat, loss: nat, q: int) {
    && S * (q * q + 2 * (q * (Q + C))) <= S * (2 * (PC * P)) + C * loss
    && (q + 1) * (q + 1) + 2 * ((q + 1) * (Q + C)) > 2 * (PC * P) - PC - 3 * S
  }

  lemma RootNearIntegral(Q: nat, C: nat, PC: nat, P: nat, loss: nat, q: int, root: nat, squared: nat, radicandS: int)
    requires QuotedByRoot(Q, C, PC, P, loss, q, root, squared, radicandS)
    ensures NearIntegral(Q, C, PC, P, loss, q)
  {
    BuyArithmetic(Q, C, PC, squared, P, root, q, loss, radicandS);
    TightArithmetic(Q, C, PC, squared, P, root + 1, q + 1, loss, radicandS);
  }

  lemma BuyQuoteNear(curve: Curve, issuance: nat, payment: nat)
    requires Sensible(curve) && PriceForCollateralAsset(curve, issuance, payment, Buy).Val?
    ensures NearIntegral(issuance, Offset(curve).v, StepRate(curve).v, payment, OffsetLoss(curve),
                         PriceForCollateralAsset(curve, issuance, payment, Buy).v)
  {
    var root, squared, radicandS := QuotedByRootIs(curve, issuance, payment);
    RootNearIntegral(issuance, Offset(curve).v, StepRate(curve).v, payment, OffsetLoss(curve),
                     PriceForCollateralAsset(curve, issuance, payment, Buy).v, root, squared, radicandS);
  }

  /** A buy quote never over-delivers. With `Q` the issuance, `C` the offset and `PC`
      step times rate, the quantity `q` quoted for a payment `P` costs, by the exact
      integral, at most `P`, up to what flooring the offset dropped. */
  lemma BuyQuoteBound(curve: Curve, issuance: nat, payment: nat)
    requires Sensible(curve) && PriceForCollateralAsset(curve, issuance, payment, Buy).Val?
    ensures var q := PriceForCollateralAsset(curve, issuance, payment, Buy).v;
            var C, PC := Offset(curve).v, StepRate(curve).v;
            S * (q * q + 2 * (q * (issuance + C))) <= S * (2 * (PC * payment)) + C * OffsetLoss(curve)
  {
    BuyQuoteNear(curve, issuance, payment);
  }

  /** A buy quote does not under-deliver by more than rounding: one base unit more would cost,
      by the exact integral, more than the payment less the units that the floors drop. */
  lemma BuyQuoteTight(curve: Curve, issuance: nat, payment: nat)
    requires Sensible(curve) && PriceForCollateralAsset(curve, issuance, payment, Buy).Val?
    ensures var q := PriceForCollateralAsset(curve, issuance, payment, Buy).v + 1;
            var C, PC := Offset(curve).v, StepRate(curve).v;
            q * q + 2 * (q * (issuance + C)) > 2 * (PC * payment) - PC - 3 * S
  {
    BuyQuoteNear(curve, issuance, payment);
  }

  /** With parameters exact at 18 digits, as the defaults are, the quoted quantity costs
      at most the payment by the exact integral. */
  lemma BuyQuoteNeverOverDelivers(curve: Curve, issuance: nat, payment: nat)
    requires Sensible(curve) && Exact(curve) && PriceForCollateralAsset(curve, issuance, payment, Buy).Val?
    ensures var q := PriceForCollateralAsset(curve, issuance, payment, Buy).v;
            var C, PC := Offset(curve).v, StepRate(curve).v;
            q * q + 2 * (q * (issuance + C)) <= 2 * (PC * payment)
  {
    BuyQuoteBound(curve, issuance, payment);
    assert OffsetLoss(curve) == 0;
  }

  lemma SlopeIs(curve: Curve)
    requires Exact(curve) && TwiceStepRate(curve).Val?
    ensures TwiceStepRate(curve).v == 2 * StepRate(curve).v
  {
    var a: int, b: int, p: int := curve.priceChangeStep, curve.priceChangeRate, StepRate(curve).v;
    assert (2 * S) * a / S == 2 * a;
    assert (2 * a) * b == (2 * p) * S;
  }

  lemma CostUpper(z: nat, slope: nat, P_I: nat, ratio: int, worth: int)
    requires ratio * slope <= z * S && worth * S <= (ratio + P_I) * z
    ensures (worth * S) * slope <= (z * S) * z + (P_I * z) * slope
  {
    MulMono(worth * S, (ratio + P_I) * z, slope);
    assert ((ratio + P_I) * z) * slope == (ratio * slope) * z + (P_I * z) * slope;
    MulMono(ratio * slope, z * S, z);
  }

  lemma CostLower(z: nat, slope: nat, P_I: nat, ratio: int, worth: int)
    requires slope > 0
    requires z * S < ratio * slope + slope && (ratio + P_I) * z < worth * S + S
    ensures (worth * S) * slope > (z * S) * z + (P_I * z) * slope - slope * z - slope * S
  {
    MulMono((ratio + P_I) * z + 1, worth * S + S, slope);
    assert ((ratio + P_I) * z + 1) * slope == (ratio * slope) * z + (P_I * z) * slope + slope;
    assert (worth * S + S) * slope == (worth * S) * slope + S * slope;
    MulMono(z * S - slope, ratio * slope, z);
    assert (z * S - slope) * z == (z * S) * z - slope * z;
  }

  lemma IntegralExpanded(Q: nat, q: nat, C: nat, PC: nat, P_I: nat)
    requires PC * P_I == C * S
    ensures var z, slope := Q + q, 2 * PC;
            (z * S) * z - (Q * S) * Q + (P_I * z) * slope - (P_I * Q) * slope == S * (q * q + 2 * (q * (Q + C)))
  {
    var z, slope := Q + q, 2 * PC;
    assert z * z == Q * Q + 2 * (q * Q) + q * q;
    assert (z * S) * z - (Q * S) * Q == S * (q * q + 2 * (q * Q));
    assert P_I * z == P_I * Q + P_I * q;
    assert (P_I * q) * slope == (2 * (PC * P_I)) * q;
    assert (C * S) * q == S * (C * q);
    assert q * (Q + C) == q * Q + C * q;
  }

  /** The cost of `q`, in terms of the exact integral. */
  lemma CostArithmetic(Q: nat, q: nat, C: nat, PC: nat, P_I: nat, ratio: int, ratio': int, from: int, to: int)
    requires PC > 0 && PC * P_I == C * S
    requires ratio * (2 * PC) <= Q * S < ratio * (2 * PC) + 2 * PC
    requires ratio' * (2 * PC) <= (Q + q) * S < ratio' * (2 * PC) + 2 * PC
    requires from * S <= (ratio + P_I) * Q < from * S + S
    requires to * S <= (ratio' + P_I) * (Q + q) < to * S + S
    ensures ((to - from) * S) * (2 * PC) < S * (q * q + 2 * (q * (Q + C))) + (2 * PC) * (Q + S)
  {
    var slope, z := 2 * PC, Q + q;
    CostUpper(z, slope, P_I, ratio', to);
    CostLower(Q, slope, P_I, ratio, from);
    assert ((to - from) * S) * slope == (to * S) * slope - (from * S) * slope;
    IntegralExpanded(Q, q, C, PC, P_I);
    assert slope * (Q + S) == slope * Q + slope * S;
  }

  lemma IntegralBelow(Q: nat, q: nat, C: nat, PC: nat, P: nat, cost: int)
    requires PC > 0 && q * q + 2 * (q * (Q + C)) <= 2 * (PC * P)
    requires (cost * S) * (2 * PC) < S * (q * q + 2 * (q * (Q + C))) + (2 * PC) * (Q + S)
    ensures cost * S < P * S + Q + S
  {
    assert S * (2 * (PC * P)) == (P * S) * (2 * PC);
    assert (P * S) * (2 * PC) + (Q + S) * (2 * PC) == (P * S + Q + S) * (2 * PC);
    CancelLt(cost * S, P * S + Q + S, 2 * PC);
  }

  /** What a purchase costs, between the exact integral over it and the same with rounding. */
  ghost predicate CostNearIntegral(Q: nat, q: nat, C: nat, PC: nat, cost: int) {
    && (cost * S) * (2 * PC) < S * (q * q + 2 * (q * (Q + C))) + (2 * PC) * (Q + S)
    && S * (q * q + 2 * (q * (Q + C))) <= (cost * S + Q + q + S) * (2 * PC)
  }

  lemma Spread(to: int, from: int, z: int, slope: int)
    ensures ((to - from) * S + z + S) * slope == (to * S) * slope - (from * S) * slope + slope * z + slope * S
  {
  }

  lemma CoverFromCost(Q: nat, q: nat, C: nat, PC: nat, P_I: nat, ratio: int, ratio': int, from: int, to: int, cost: int)
    requires PC > 0 && PC * P_I == C * S && cost == to - from
    requires ratio * (2 * PC) <= Q * S < ratio * (2 * PC) + 2 * PC
    requires ratio' * (2 * PC) <= (Q + q) * S < ratio' * (2 * PC) + 2 * PC
    requires from * S <= (ratio + P_I) * Q < from * S + S
    requires to * S <= (ratio' + P_I) * (Q + q) < to * S + S
    ensures S * (q * q + 2 * (q * (Q + C))) <= (cost * S + Q + q + S) * (2 * PC)
  {
    var slope, z := 2 * PC, Q + q;
    CostLower(z, slope, P_I, ratio', to);
    CostUpper(Q, slope, P_I, ratio, from);
    IntegralExpanded(Q, q, C, PC, P_I);
    Spread(to, from, z, slope);
  }

  lemma WorthsNearIntegral(Q: nat, q: nat, C: nat, PC: nat, P_I: nat, ratio: int, ratio': int, from: int, to: int)
    requires PC > 0 && PC * P_I == C * S
    requires ratio * (2 * PC) <= Q * S < ratio * (2 * PC) + 2 * PC
    requires ratio' * (2 * PC) <= (Q + q) * S < ratio' * (2 * PC) + 2 * PC
    requires from * S <= (ratio + P_I) * Q < from * S + S
    requires to * S <= (ratio' + P_I) * (Q + q) < to * S + S
    ensures CostNearIntegral(Q, q, C, PC, to - from)
  {
    CostArithmetic(Q, q, C, PC, P_I, ratio, ratio', from, to);
    CoverFromCost(Q, q, C, PC, P_I, ratio, ratio', from, to, to - from);
  }

  lemma PurchaseNearIntegral(curve: Curve, issuance: nat, q: nat)
    requires Sensible(curve) && Exact(curve) && StepRate(curve).v > 0
    requires PriceForMainAsset(curve, issuance, q, Buy).Val?
    ensures CostNearIntegral(issuance, q, Offset(curve).v, StepRate(curve).v,
                             PriceForMainAsset(curve, issuance, q, Buy).v)
  {
    var PC := StepRate(curve).v;
    BuyIs(curve, issuance, q);
    SlopeIs(curve);
    WorthsNearIntegral(issuance, q, Offset(curve).v, PC, curve.initialPrice,
                       Div(issuance, 2 * PC).v, Div(issuance + q, 2 * PC).v,
                       Worth(curve, issuance).v, Worth(curve, issuance + q).v);
  }

  lemma RoundTripOf(Q: nat, q: nat, C: nat, PC: nat, P: nat, cost: int)
    requires PC > 0 && q * q + 2 * (q * (Q + C)) <= 2 * (PC * P) && CostNearIntegral(Q, q, C, PC, cost)
    ensures cost * S < P * S + Q + S
  {
    IntegralBelow(Q, q, C, PC, P, cost);
  }

  /** The round trip through both formulas: the quantity quoted for a payment, priced by
      the other formula, costs less than the payment, plus one base unit, plus one for
      each whole main asset issued. */
  lemma BuyRoundTrip(curve: Curve, issuance: nat, payment: nat)
    requires Sensible(curve) && Exact(curve) && StepRate(curve).v > 0
    requires PriceForCollateralAsset(curve, issuance, payment, Buy).Val?
    ensures var q := PriceForCollateralAsset(curve, issuance, payment, Buy).v;
            q >= 0 && PriceForMainAsset(curve, issuance, q, Buy).Val? ==>
              PriceForMainAsset(curve, issuance, q, Buy).v * S < payment * S + issuance + S
  {
    var q := PriceForCollateralAsset(curve, issuance, payment, Buy).v;
    if q >= 0 && PriceForMainAsset(curve, issuance, q, Buy).Val? {
      BuyQuoteNeverOverDelivers(curve, issuance, payment);
      PurchaseNearIntegral(curve, issuance, q);
      RoundTripOf(issuance, q, Offset(curve).v, StepRate(curve).v, payment,
                  PriceForMainAsset(curve, issuance, q, Buy).v);
    }
  }

  lemma TermABelow(Q: nat, C: nat, PC: nat, k: nat, P_I: nat, scaledQ: nat, ratio: nat, initial: nat)
    requires PC * P_I == C * S
    requires scaledQ * S <= Q * k && ratio * PC <= scaledQ * S && initial * S <= P_I * k
    ensures (ratio + initial) * PC <= (Q + C) * k
  {
    MulMono(initial * S, P_I * k, PC);
    assert (P_I * k) * PC == (C * S) * k;
    assert (initial * S) * PC == (initial * PC) * S;
    assert (C * S) * k == (C * k) * S;
    CancelLe(initial * PC, C * k, S);
    assert (ratio + initial) * PC == ratio * PC + initial * PC;
    assert (Q + C) * k == Q * k + C * k;
  }

  lemma TermBAbove(PC: nat, k: nat, price: nat, scaledPrice: nat, termB: nat)
    requires (2 * k) * price < scaledPrice * S + S
    requires scaledPrice * S < termB * PC + PC
    ensures termB * PC > 2 * (k * price) - S - PC
  {
    assert (2 * k) * price == 2 * (k * price);
  }

  lemma LeftBelow(PC: nat, k: nat, root: nat, scaled: nat, left: nat)
    requires scaled * S <= PC * root && left * k <= scaled * S
    ensures left * k <= PC * root
  {
  }

  lemma RootBound(PC: nat, root: nat, termA: nat, termB: nat, wk: nat)
    requires termA * PC <= wk && root * root <= termA * termA - termB * S
    ensures (PC * root) * (PC * root) <= wk * wk - (PC * S) * (termB * PC)
  {
    var pp := PC * PC;
    Regroup(PC, root, PC, root);
    MulMono(root * root, termA * termA - termB * S, pp);
    TimesDifference(termA * termA, termB * S, pp);
    SquareLe(termA * PC, wk);
    Regroup(termA, PC, termA, PC);
    assert (termB * S) * pp == (PC * S) * (termB * PC);
  }

  lemma DifferenceOfSquares(W: int, left: int, kk: int)
    ensures kk * ((W - left) * (2 * W - (W - left))) == (W * W) * kk - (left * left) * kk
  {
    assert (W - left) * (W + left) == W * W - left * left;
    TimesDifference(W * W, left * left, kk);
  }

  lemma SellArithmetic(W: nat, PC: nat, k: nat, price: nat, termA: nat, termB: nat, root: nat, left: nat, radicand: int)
    requires termA * PC <= W * k
    requires termB * PC > 2 * (k * price) - S - PC
    requires left * k <= PC * root
    requires root * root <= radicand * S && (radicand + termB) * S <= termA * termA
    ensures (k * k) * ((W - left) * (2 * W - (W - left))) >= (PC * S) * (2 * (k * price) - S - PC)
  {
    // (left * k)^2 <= (PC * root)^2 <= PC^2 * (termA^2 - termB * S) <= (W * k)^2 - PC * S * (termB * PC)
    RootBound(PC, root, termA, termB, W * k);
    SquareLe(left * k, PC * root);
    Regroup(left, k, left, k);
    Regroup(W, k, W, k);
    MulMono(2 * (k * price) - S - PC, termB * PC, PC * S);
    DifferenceOfSquares(W, left, k * k);
  }

  /** A sell quote covers its price: the quantity `q` quoted for a price `OUT` is worth,
      by the exact integral at the sell coefficient `k`, at least `OUT`, but for
      `(PC + S) / (2 * k)` base units of rounding. */
  lemma SellQuoteCovers(curve: Curve, issuance: nat, price: nat)
    requires Sensible(curve) && Exact(curve)
    requires PriceForCollateralAsset(curve, issuance, price, Sell).Val?
    ensures var q, C, PC, k := PriceForCollateralAsset(curve, issuance, price, Sell).v, Offset(curve).v,
            StepRate(curve).v, curve.sellCoefficient;
            (k * k) * (q * (2 * (issuance + C) - q)) >= (PC * S) * (2 * (k * price) - S - PC)
  {
    var q, C, PC, k := PriceForCollateralAsset(curve, issuance, price, Sell).v, Offset(curve).v, StepRate(curve).v,
        curve.sellCoefficient;
    var radicand := SellRadicand(curve, issuance, price).v;
    var root := Sqrt(radicand).v;
    var scaled := Mul(PC, root).v;
    var left := Div(scaled, k).v;
    var ratio := Div(Mul(issuance, k).v, PC).v;
    var initial := Mul(curve.initialPrice, k).v;
    var scaledPrice := Mul(Mul(2 * S, k).v, price).v;
    assert Mul(2 * S, k).v == 2 * k;
    var termB := Div(scaledPrice, PC).v;
    assert PC > 0 && k > 0;
    TermABelow(issuance, C, PC, k, curve.initialPrice, Mul(issuance, k).v, ratio, initial);
    TermBAbove(PC, k, price, scaledPrice, termB);
    LeftBelow(PC, k, root, scaled, left);
    assert radicand == Mul(ratio + initial, ratio + initial).v - termB;
    SellArithmetic(issuance + C, PC, k, price, ratio + initial, termB, root, left, radicand);
    assert q == issuance + C - left;
  }

  lemma TermAAbove(Q: nat, C: nat, PC: nat, k: nat, P_I: nat, scaledQ: nat, ratio: nat, initial: nat)
    requires PC > 0 && PC * P_I == C * S
    requires Q * k < scaledQ * S + S && scaledQ * S < ratio * PC + PC && P_I * k < initial * S + S
    ensures (ratio + initial) * PC > (Q + C) * k - S - 2 * PC
  {
    MulMono(P_I * k + 1, initial * S + S, PC);
    assert (P_I * k) * PC == (C * S) * k && (C * S) * k == (C * k) * S;
    assert (initial * S + S) * PC == (initial * PC + PC) * S;
    CancelLt(C * k, initial * PC + PC, S);
    TimesSum(ratio, initial, PC);
    TimesSum(Q, C, k);
  }

  lemma RootReaches(PC: nat, root: nat, termA: nat, termB: nat, e: nat)
    requires PC > 0 && e <= termA * PC && termA * termA < root * root + termB * S + S
    ensures e * e < (root * PC) * (root * PC) + (PC * S) * (termB * PC) + (PC * S) * PC
  {
    var pp := PC * PC;
    SquareLe(e, termA * PC);
    Regroup(termA, PC, termA, PC);
    Regroup(root, PC, root, PC);
    MulMono(termA * termA + 1, root * root + termB * S + S, pp);
    assert (termB * S) * pp == (PC * S) * (termB * PC) && S * pp == (PC * S) * PC;
    TimesSum(termA * termA, 1, pp);
    TimesSum(root * root, termB * S + S, pp);
    TimesSum(termB * S, S, pp);
  }

  /** Squares that show how little more than its price a quantity asked for is worth: with `W` the
      issuance and the offset and `k` the sell coefficient, scaled by `k`, what is left after all
      but one unit of it, but for rounding, squares to less than `W` does, less the price. */
  ghost predicate AskedTightly(W: int, PC: nat, k: nat, price: nat, q: int) {
    var whole, left := W * k - S - 2 * PC, (W - q + 1) * k + S + PC;
    whole >= 0 ==> whole * whole < left * left + (PC * S) * (2 * (k * price) + PC)
  }

  lemma SellTightArithmetic(W: nat, PC: nat, k: nat, price: nat, termA: nat, termB: nat, root: nat, left: nat,
                            radicand: int)
    requires PC > 0 && termA * PC > W * k - S - 2 * PC && termB * PC <= 2 * (k * price)
    requires PC * root < left * k + k + S
    requires radicand * S < (root + 1) * (root + 1) && termA * termA < (radicand + termB) * S + S
    ensures AskedTightly(W, PC, k, price, W - left)
  {
    var whole, rest := W * k - S - 2 * PC, (left + 1) * k + S + PC;
    if whole >= 0 {
      RootReaches(PC, root + 1, termA, termB, whole);
      TimesSum(left, 1, k);
      assert (root + 1) * PC == PC * root + PC;
      SquareLe((root + 1) * PC, rest);
      MulMono(termB * PC, 2 * (k * price), PC * S);
      assert (PC * S) * (2 * (k * price) + PC) == (2 * (k * price)) * (PC * S) + (PC * S) * PC;
    }
  }

  lemma RadicandAbove(termA: Fixed, termB: Fixed, radicand: int)
    requires Mul(termA, termA).Val? && radicand == Mul(termA, termA).v - termB
    ensures termA * termA < (radicand + termB) * S + S
  {
  }

  lemma LeftAbove(PC: nat, k: nat, root: nat, scaled: nat, left: nat)
    requires PC * root < scaled * S + S && scaled * S < left * k + k
    ensures PC * root < left * k + k + S
  {
  }

  lemma TermBBelow(PC: nat, k: nat, price: nat, scaledPrice: nat, termB: nat)
    requires scaledPrice * S <= (2 * k) * price && termB * PC <= scaledPrice * S
    ensures termB * PC <= 2 * (k * price)
  {
    assert (2 * k) * price == 2 * (k * price);
  }

  lemma SellTightFromFloors(Q: nat, C: nat, PC: nat, k: nat, P_I: nat, price: nat, scaledQ: nat, ratio: nat,
                            initial: nat, scaledPrice: nat, termB: nat, root: nat, scaled: nat, left: nat,
                            radicand: int)
    requires PC > 0 && PC * P_I == C * S
    requires Q * k < scaledQ * S + S && scaledQ * S < ratio * PC + PC && P_I * k < initial * S + S
    requires scaledPrice * S <= (2 * k) * price && termB * PC <= scaledPrice * S
    requires PC * root < scaled * S + S && scaled * S < left * k + k
    requires radicand * S < (root + 1) * (root + 1)
    requires (ratio + initial) * (ratio + initial) < (radicand + termB) * S + S
    ensures AskedTightly(Q + C, PC, k, price, Q + C - left)
  {
    TermAAbove(Q, C, PC, k, P_I, scaledQ, ratio, initial);
    TermBBelow(PC, k, price, scaledPrice, termB);
    LeftAbove(PC, k, root, scaled, left);
    SellTightArithmetic(Q + C, PC, k, price, ratio + initial, termB, root, left, radicand);
  }

  /** A sell quote does not ask for more than its price by more than rounding. */
  lemma SellQuoteTight(curve: Curve, issuance: nat, price: nat)
    requires Sensible(curve) && Exact(curve)
    requires PriceForCollateralAsset(curve, issuance, price, Sell).Val?
    ensures AskedTightly(issuance + Offset(curve).v, StepRate(curve).v, curve.sellCoefficient, price,
                         PriceForCollateralAsset(curve, issuance, price, Sell).v)
  {
    var C, PC, k := Offset(curve).v, StepRate(curve).v, curve.sellCoefficient;
    var radicand := SellRadicand(curve, issuance, price).v;
    var root := Sqrt(radicand).v;
    var scaled := Mul(PC, root).v;
    var left := Div(scaled, k).v;
    var ratio := Div(Mul(issuance, k).v, PC).v;
    var initial := Mul(curve.initialPrice, k).v;
    var scaledPrice := Mul(Mul(2 * S, k).v, price).v;
    assert Mul(2 * S, k).v == 2 * k;
    var termB := Div(scaledPrice, PC).v;
    assert PC > 0 && k > 0;
    RadicandAbove(ratio + initial, termB, radicand);
    SellTightFromFloors(issuance, C, PC, k, curve.initialPrice, price, Mul(issuance, k).v, ratio, initial, scaledPrice,
                        termB, root, scaled, left, radicand);
    assert PriceForCollateralAsset(curve, issuance, price, Sell).v == issuance + C - left;
  }

  // ----- quoted amounts

  datatype CurveError = CalculatePriceFailed

  function ToAmount(x: Fx): Result<nat, CurveError> {
    if x.Val? && x.v >= 0 then Ok(x.v) else Err(CalculatePriceFailed)
  }

  /** (input, output) of a purchase of the main asset. */
  function DecideBuyAmounts(curve: Curve, issuance: nat, request: SwapAmount): Result<(nat, nat), CurveError> {
    if request.variant.WithDesiredInput? then
      var output :- ToAmount(PriceForCollateralAsset(curve, issuance, request.amount, Buy));
      Ok((request.amount, output))
    else
      var input :- ToAmount(PriceForMainAsset(curve, issuance, request.amount, Buy));
      Ok((input, request.amount))
  }

  /** (input, output) of a sale of the main asset. */
  function DecideSellAmounts(curve: Curve, issuance: nat, request: SwapAmount): Result<(nat, nat), CurveError> {
    if request.variant.WithDesiredInput? then
      var output :- ToAmount(PriceForMainAsset(curve, issuance, request.amount, Sell));
      Ok((request.amount, output))
    else
      var input :- ToAmount(PriceForCollateralAsset(curve, issuance, request.amount, Sell));
      Ok((input, request.amount))
  }

  lemma CoverFromQuote(Q: nat, q: nat, C: nat, PC: nat, P: nat)
    requires q * q + 2 * (q * (Q + C)) <= 2 * (PC * P)
    ensures S * (q * q + 2 * (q * (Q + C))) <= (P * S + Q + q + S) * (2 * PC)
  {
    assert S * (2 * (PC * P)) == (P * S) * (2 * PC);
    assert (P * S + (Q + q + S)) * (2 * PC) == (P * S) * (2 * PC) + (Q + q + S) * (2 * PC);
    MulMono(0, Q + q + S, 2 * PC);
  }

  /** Whichever side of a purchase is desired, the payment covers the exact integral over
      the quantity sold, but for one base unit and one for each whole main asset issued
      afterwards. The desired side is as desired; and the buyer gets what the payment buys: one
      base unit more than a quoted quantity would cost more than the payment less explicit
      rounding, and a quoted payment exceeds the integral by no more than one base unit and one
      for each whole main asset issued. */
  lemma BuyAmountsCover(curve: Curve, issuance: nat, request: SwapAmount)
    requires Sensible(curve) && Exact(curve) && StepRate(curve).v > 0
    requires DecideBuyAmounts(curve, issuance, request).Ok?
    ensures var (payment, q) := DecideBuyAmounts(curve, issuance, request).value;
            var C, PC := Offset(curve).v, StepRate(curve).v;
            && S * (q * q + 2 * (q * (issuance + C))) <= (payment * S + issuance + q + S) * (2 * PC)
            && (request.variant.WithDesiredInput? ==>
                  && payment == request.amount
                  && (q + 1) * (q + 1) + 2 * ((q + 1) * (issuance + C)) > 2 * (PC * payment) - PC - 3 * S)
            && (request.variant.WithDesiredOutput? ==>
                  && q == request.amount
                  && (payment * S) * (2 * PC) < S * (q * q + 2 * (q * (issuance + C))) + (2 * PC) * (issuance + S))
  {
    var (payment, q) := DecideBuyAmounts(curve, issuance, request).value;
    var C, PC := Offset(curve).v, StepRate(curve).v;
    if request.variant.WithDesiredInput? {
      BuyQuoteNeverOverDelivers(curve, issuance, payment);
      BuyQuoteTight(curve, issuance, payment);
      CoverFromQuote(issuance, q, C, PC, payment);
    } else {
      PurchaseNearIntegral(curve, issuance, q);
    }
  }

  // ----- the payout of a sale

  /** Twice step times rate times the exact integral over the last `q` of the issuance. */
  function SoldIntegral(issuance: nat, C: int, q: nat): int {
    q * (2 * (issuance + C) - q)
  }

  lemma Scaled(payout: nat, k: nat, cost: int, slope: nat, bound: int)
    requires payout * S <= k * cost && (cost * S) * slope <= bound
    ensures (payout * S) * (S * slope) <= k * bound
  {
    MulMono(payout * S, k * cost, S * slope);
    assert (k * cost) * (S * slope) == ((cost * S) * slope) * k;
    MulMono((cost * S) * slope, bound, k);
  }

  lemma CostLowerNegative(z: int, slope: nat, P_I: nat, ratio: int, worth: int)
    requires slope > 0 && z < 0
    requires ratio * slope <= z * S && (ratio + P_I) * z < worth * S + S
    ensures (worth * S) * slope > (z * S) * z + (P_I * z) * slope - slope * S
  {
    MulMono((ratio + P_I) * z + 1, worth * S + S, slope);
    assert ((ratio + P_I) * z + 1) * slope == (ratio * slope) * z + (P_I * z) * slope + slope;
    assert (worth * S + S) * slope == (worth * S) * slope + S * slope;
    MulMono(ratio * slope, z * S, -z);
    assert (ratio * slope) * -z == -((ratio * slope) * z) && (z * S) * -z == -((z * S) * z);
  }

  lemma SoldExpanded(Q: nat, q: nat, C: nat, PC: nat, P_I: nat)
    requires PC * P_I == C * S
    ensures var z, slope := Q - q, 2 * PC;
            (Q * S) * Q - (z * S) * z + (P_I * Q) * slope - (P_I * z) * slope == S * SoldIntegral(Q, C, q)
  {
    var z, slope := Q - q, 2 * PC;
    assert z * z == Q * Q - 2 * (q * Q) + q * q;
    assert (Q * S) * Q - (z * S) * z == S * (2 * (q * Q) - q * q);
    assert P_I * Q == P_I * z + P_I * q;
    assert (P_I * q) * slope == (2 * (PC * P_I)) * q;
    assert (C * S) * q == S * (C * q);
    assert SoldIntegral(Q, C, q) == 2 * (q * Q) + 2 * (C * q) - q * q;
  }

  /** What the sold quantity is worth, in terms of the exact integral; more than is issued
      may be asked for. */
  lemma SoldFor(Q: nat, q: nat, C: nat, PC: nat, P_I: nat, ratio: int, ratio': int, from: int, to: int)
    requires PC > 0 && PC * P_I == C * S
    requires ratio * (2 * PC) <= Q * S
    requires ratio' * (2 * PC) <= (Q - q) * S < ratio' * (2 * PC) + 2 * PC
    requires from * S <= (ratio + P_I) * Q
    requires (ratio' + P_I) * (Q - q) < to * S + S
    ensures var left := if q <= Q then Q - q else 0;
            ((from - to) * S) * (2 * PC) <= S * SoldIntegral(Q, C, q) + (2 * PC) * (left + S)
  {
    var slope, z, left := 2 * PC, Q - q, if q <= Q then Q - q else 0;
    CostUpper(Q, slope, P_I, ratio, from);
    if q <= Q { CostLower(z, slope, P_I, ratio', to); } else { CostLowerNegative(z, slope, P_I, ratio', to); }
    SoldExpanded(Q, q, C, PC, P_I);
    assert ((from - to) * S) * slope == (from * S) * slope - (to * S) * slope;
    assert slope * (left + S) == slope * left + slope * S;
  }

  lemma PayoutWithin(curve: Curve, issuance: nat, q: nat, payout: nat)
    requires Sensible(curve) && Exact(curve) && StepRate(curve).v > 0
    requires payout <= MAX && PriceForMainAsset(curve, issuance, q, Sell) == Val(payout)
    ensures var C, PC, left := Offset(curve).v, StepRate(curve).v, if q <= issuance then issuance - q else 0;
            (payout * S) * (S * (2 * PC)) <=
                curve.sellCoefficient * (S * SoldIntegral(issuance, C, q) + (2 * PC) * (left + S))
  {
    SlopeIs(curve);
    var C, PC, z := Offset(curve).v, StepRate(curve).v, issuance - q;
    var ratio, ratio' := Div(issuance, 2 * PC).v, Div(z, 2 * PC).v;
    var from, to := Worth(curve, issuance).v, Worth(curve, z).v;
    SoldFor(issuance, q, C, PC, curve.initialPrice, ratio, ratio', from, to);
    Scaled(payout, curve.sellCoefficient, from - to, 2 * PC,
           S * SoldIntegral(issuance, C, q) + (2 * PC) * ((if q <= issuance then issuance - q else 0) + S));
  }

  lemma ScaledBelow(payout: nat, k: nat, cost: int, slope: nat, bound: int)
    requires slope > 0 && k * cost < payout * S + S && bound <= (cost * S) * slope
    ensures k * bound < ((payout + 1) * S) * (S * slope)
  {
    MulMono(k * cost + 1, payout * S + S, S * slope);
    TimesSum(k * cost, 1, S * slope);
    assert (k * cost) * (S * slope) == ((cost * S) * slope) * k;
    MulMono(bound, (cost * S) * slope, k);
  }

  lemma CostUpperNegative(z: int, slope: nat, P_I: nat, ratio: int, worth: int)
    requires z < 0 && z * S < ratio * slope + slope && worth * S <= (ratio + P_I) * z
    ensures (worth * S) * slope <= (z * S) * z + (P_I * z) * slope - slope * z
  {
    MulMono(worth * S, (ratio + P_I) * z, slope);
    assert ((ratio + P_I) * z) * slope == (ratio * slope) * z + (P_I * z) * slope;
    MulMono(z * S - slope, ratio * slope, -z);
    assert (ratio * slope) * -z == -((ratio * slope) * z);
    assert (z * S - slope) * -z == slope * z - (z * S) * z;
  }

  lemma SoldForAtLeast(Q: nat, q: nat, C: nat, PC: nat, P_I: nat, ratio: int, ratio': int, from: int, to: int)
    requires PC > 0 && PC * P_I == C * S
    requires Q * S < ratio * (2 * PC) + 2 * PC
    requires ratio' * (2 * PC) <= (Q - q) * S < ratio' * (2 * PC) + 2 * PC
    requires (ratio + P_I) * Q < from * S + S
    requires to * S <= (ratio' + P_I) * (Q - q)
    ensures var excess := if q <= Q then 0 else q - Q;
            ((from - to) * S) * (2 * PC) >= S * SoldIntegral(Q, C, q) - (2 * PC) * (Q + excess + S)
  {
    var slope, z, excess := 2 * PC, Q - q, if q <= Q then 0 else q - Q;
    CostLower(Q, slope, P_I, ratio, from);
    if q <= Q { CostUpper(z, slope, P_I, ratio', to); } else { CostUpperNegative(z, slope, P_I, ratio', to); }
    SoldExpanded(Q, q, C, PC, P_I);
    assert ((from - to) * S) * slope == (from * S) * slope - (to * S) * slope;
    assert slope * (Q + excess + S) == slope * Q + slope * excess + slope * S;
  }

  lemma PayoutAtLeast(curve: Curve, issuance: nat, q: nat, payout: nat)
    requires Sensible(curve) && Exact(curve) && StepRate(curve).v > 0
    requires payout <= MAX && PriceForMainAsset(curve, issuance, q, Sell) == Val(payout)
    ensures var C, PC, excess := Offset(curve).v, StepRate(curve).v, if q <= issuance then 0 else q - issuance;
            curve.sellCoefficient * (S * SoldIntegral(issuance, C, q) - (2 * PC) * (issuance + excess + S)) <
                ((payout + 1) * S) * (S * (2 * PC))
  {
    SlopeIs(curve);
    var C, PC, z := Offset(curve).v, StepRate(curve).v, issuance - q;
    var ratio, ratio' := Div(issuance, 2 * PC).v, Div(z, 2 * PC).v;
    var from, to := Worth(curve, issuance).v, Worth(curve, z).v;
    SoldForAtLeast(issuance, q, C, PC, curve.initialPrice, ratio, ratio', from, to);
    ScaledBelow(payout, curve.sellCoefficient, from - to, 2 * PC,
                S * SoldIntegral(issuance, C, q)
                  - (2 * PC) * (issuance + (if q <= issuance then 0 else q - issuance) + S));
  }

  /** Whichever side of a sale is desired, the payout is at most the sell coefficient `k`
      times the exact integral over the quantity sold, up to rounding: one base unit and one
      for each whole main asset that is left, for a desired input; and `(PC + S) / (2 * k)`
      base units, for a desired output. The desired side is as desired; and the seller is not
      paid less, or asked for more, than that but for explicit rounding. */
  lemma SellAmountsCovered(curve: Curve, issuance: nat, request: SwapAmount)
    requires Sensible(curve) && Exact(curve) && StepRate(curve).v > 0
    requires DecideSellAmounts(curve, issuance, request).Ok?
    ensures var (q, payout) := DecideSellAmounts(curve, issuance, request).value;
            var C, PC, k := Offset(curve).v, StepRate(curve).v, curve.sellCoefficient;
            var left, excess := if q <= issuance then issuance - q else 0, if q <= issuance then 0 else q - issuance;
            && (request.variant.WithDesiredInput? ==>
                  && q == request.amount
                  && (payout * S) * (S * (2 * PC)) <= k * (S * SoldIntegral(issuance, C, q) + (2 * PC) * (left + S))
                  && k * (S * SoldIntegral(issuance, C, q) - (2 * PC) * (issuance + excess + S)) <
                       ((payout + 1) * S) * (S * (2 * PC)))
            && (request.variant.WithDesiredOutput? ==>
                  && payout == request.amount && AskedTightly(issuance + C, PC, k, payout, q)
                  && (PC * S) * (2 * (k * payout)) <= (k * k) * SoldIntegral(issuance, C, q) + (PC * S) * (S + PC))
  {
    var (q, payout) := DecideSellAmounts(curve, issuance, request).value;
    if request.variant.WithDesiredInput? {
      PayoutWithin(curve, issuance, q, payout);
      PayoutAtLeast(curve, issuance, q, payout);
    } else {
      SellQuoteTight(curve, issuance, payout);
      SellQuoteCovers(curve, issuance, payout);
      TimesDifference(2 * (curve.sellCoefficient * payout), S + StepRate(curve).v, StepRate(curve).v * S);
    }
  }
}
