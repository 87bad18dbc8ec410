/** Prices, fees and shares of a constant-product pool. Fees are 0.3%; every formula
    is a chain of floored fixed-point operations. */
module XykMath {
  import opened FixedPoint
  import opened Swaps

  datatype PoolError =
    | AssetsMustNotBeSame
    | BaseAssetIsNotMatchedWithAnyAssetArguments
    | InvalidMinimumBoundValueOfBalance
    | TechAccountIdIsNotRegistered
    | PoolIsAlreadyInitialized
    | SourceAndClientAccountDoNotMatchAsEqual
    | AccountBalanceIsInvalid
    | PoolIsEmpty
    | PoolIsInvalid
    | ZeroValueInAmountParameter
    | FixedWrapperCalculationFailed
    | PoolPairRatioAndPairSwapRatioIsDifferent
    | CalculatedValueIsOutOfDesiredBounds
    | CalculatedValueIsNotMeetsRequiredBoundaries
    | ImpossibleToDecideAssetPairAmounts
    | ImpossibleToDecideDepositLiquidityAmounts
    | ImpossibleToDecideValidPairValuesFromRangeForThisPool
    | InitialLiqudityDepositRatioMustBeDefined
    | RangeValuesIsInvalid
    | DestinationAmountOfLiquidityIsNotLargeEnough
    | SourceBalanceIsNotLargeEnough
    | TargetBalanceIsNotLargeEnough
    | SourceBaseAmountIsNotLargeEnough
    | TargetBaseAmountIsNotLargeEnough
    | SourceBalanceOfLiquidityTokensIsNotLargeEnough
    | InvalidWithdrawLiquidityBasicAssetAmount
    | InvalidWithdrawLiquidityTargetAssetAmount
    | PoolBecameInvalidAfterOperation
    | BalanceTooLow
    | BalanceOverflow

  type PoolResult<+T> = Result<T, PoolError>

  /** Never reflected in the supply of markers, yet always counted when withdrawing. */
  const MIN_LIQUIDITY: nat := 1000

  function ToBalance(x: Fx): PoolResult<nat> {
    if x.Val? && x.v >= 0 then Ok(x.v) else Err(FixedWrapperCalculationFailed)
  }

  // ----- the 0.3% fee

  function FeeFx(x: nat): Fx {
    var amount :- FromBalance(x);
    var tripled :- Mul(amount, 3 * S);
    Div(tripled, 1000 * S)
  }

  function Fee(x: nat): PoolResult<nat> {
    ToBalance(FeeFx(x))
  }

  /** The fee is the floored 0.3%, and can be computed exactly when three times the
      amount fits. */
  lemma FeeExactly(x: nat)
    ensures Fee(x).Ok? <==> 3 * x <= MAX
    ensures Fee(x).Ok? ==> Fee(x).value == 3 * x / 1000
  {
    if x <= MAX {
      assert x * (3 * S) / S == 3 * x;
      if 3 * x <= MAX {
        FloorUnique(3 * x * S, 1000 * S, 3 * x / 1000);
      }
    }
  }

  // ----- dividing by a floored quotient

  /** `a` divided by the floored `n / d`: both floors, and neither a division by nothing. */
  predicate QuotientFits(a: nat, n: nat, d: nat) {
    d > 0 && 0 < n * S / d <= MAX && a * S / (n * S / d) <= MAX
  }

  lemma QuotientExists(a: nat, n: nat, d: nat)
    requires a <= MAX && n <= MAX && d <= MAX
    ensures Div(n, d).Val? && Div(a, Div(n, d).v).Val? <==> QuotientFits(a, n, d)
    ensures QuotientFits(a, n, d) ==> Div(n, d).v == n * S / d && Div(a, Div(n, d).v).v == a * S / (n * S / d)
  {
    if d > 0 {
      FloorMono(0, n * S, d);
      if n * S / d > 0 { FloorMono(0, a * S, n * S / d); }
    }
  }

  // ----- deposits

  function QuoteFx(a: nat, reserveA: nat, reserveB: nat): Fx {
    var amount :- FromBalance(a);
    var rb :- FromBalance(reserveB);
    var product :- Mul(amount, rb);
    var ra :- FromBalance(reserveA);
    Div(product, ra)
  }

  /** The amount of the other asset at the pool's ratio. */
  function CalculateQuote(a: nat, reserveA: nat, reserveB: nat): PoolResult<nat> {
    ToBalance(QuoteFx(a, reserveA, reserveB))
  }

  lemma QuoteArithmetic(exact: int, product: int, ra: nat, q: int)
    requires product * S <= exact < product * S + S && q * ra <= product * S < q * ra + ra
    ensures q * ra <= exact < (q + 1) * ra + S
  {
    TimesSum(q, 1, ra);
  }

  /** A quote is never above the pool ratio, and short of it by less than `1 + S / ra`. */
  lemma QuoteNearRatio(a: nat, ra: nat, rb: nat)
    requires CalculateQuote(a, ra, rb).Ok?
    ensures ra > 0 && var q := CalculateQuote(a, ra, rb).value; q * ra <= a * rb < (q + 1) * ra + S
  {
    QuoteArithmetic(a * rb, Mul(a, rb).v, ra, CalculateQuote(a, ra, rb).value);
  }

  /** It exists exactly when its two floors fit. */
  lemma QuoteExists(a: nat, ra: nat, rb: nat)
    ensures CalculateQuote(a, ra, rb).Ok? <==>
            && a <= MAX && rb <= MAX && a * rb / S <= MAX
            && 0 < ra <= MAX && a * rb / S * S / ra <= MAX
  {
    if a <= MAX && rb <= MAX {
      MulMono(0, a, rb);
      FloorMono(0, a * rb, S);
      if 0 < ra { FloorMono(0, a * rb / S * S, ra); }
    }
  }

  function CalculateOptimalDeposit(ra: nat, rb: nat, aDesired: nat, bDesired: nat, aMin: nat,
                                   bMin: nat): PoolResult<(nat, nat)> {
    var a :- CalculateQuote(bDesired, rb, ra);
    var b :- CalculateQuote(aDesired, ra, rb);
    if b <= bDesired then
      if b >= bMin then Ok((aDesired, b))
      else Err(ImpossibleToDecideValidPairValuesFromRangeForThisPool)
    else
      if aMin <= a <= aDesired then Ok((a, bDesired))
      else Err(ImpossibleToDecideValidPairValuesFromRangeForThisPool)
  }

  /** If the first side's desired amount asks too much of the second side, then the
      second side's desired amount does not ask too much of the first. */
  lemma OneSideMatches(ra: nat, rb: nat, aDesired: nat, bDesired: nat)
    requires CalculateQuote(bDesired, rb, ra).Ok? && CalculateQuote(aDesired, ra, rb).Ok?
    requires CalculateQuote(aDesired, ra, rb).value > bDesired
    ensures CalculateQuote(bDesired, rb, ra).value <= aDesired
  {
    var a, b := CalculateQuote(bDesired, rb, ra).value, CalculateQuote(aDesired, ra, rb).value;
    QuoteNearRatio(aDesired, ra, rb);
    QuoteNearRatio(bDesired, rb, ra);
    MulMono(bDesired, b, ra);
    CancelLe(a, aDesired, rb);
  }

  predicate OneSideDesired(amounts: (nat, nat), aDesired: nat, bDesired: nat, ra: nat, rb: nat) {
    || (amounts.0 == aDesired && amounts.1 * ra <= aDesired * rb < (amounts.1 + 1) * ra + S)
    || (amounts.1 == bDesired && amounts.0 * rb <= bDesired * ra < (amounts.0 + 1) * rb + S)
  }

  /** A deposit amount fails, once both quotes exist, only because a minimum is missed;
      on success both amounts lie between their bounds, one is the desired one, and the
      other one matches it, without exceeding the pool ratio and short of it by rounding only. */
  lemma OptimalDeposit(ra: nat, rb: nat, aDesired: nat, bDesired: nat, aMin: nat, bMin: nat)
    requires aMin <= aDesired && bMin <= bDesired
    requires CalculateQuote(bDesired, rb, ra).Ok? && CalculateQuote(aDesired, ra, rb).Ok?
    ensures var r := CalculateOptimalDeposit(ra, rb, aDesired, bDesired, aMin, bMin);
            var a, b := CalculateQuote(bDesired, rb, ra).value, CalculateQuote(aDesired, ra, rb).value;
            && (r.Err? <==> if b <= bDesired then b < bMin else a < aMin)
            && (r.Ok? ==> aMin <= r.value.0 <= aDesired && bMin <= r.value.1 <= bDesired)
            && (r.Ok? ==> OneSideDesired(r.value, aDesired, bDesired, ra, rb))
  {
    QuoteNearRatio(aDesired, ra, rb);
    QuoteNearRatio(bDesired, rb, ra);
    if CalculateQuote(aDesired, ra, rb).value > bDesired {
      OneSideMatches(ra, rb, aDesired, bDesired);
    }
  }

  function MarkersFx(amount: nat, reserve: nat, supply: nat): Fx {
    var a :- FromBalance(amount);
    var r :- FromBalance(reserve);
    var t :- FromBalance(supply);
    var price :- Div(r, t);
    Div(a, price)
  }

  /** The markers for one side exist exactly when both quotients fit. */
  lemma MarkersExist(amount: nat, reserve: nat, supply: nat)
    ensures ToBalance(MarkersFx(amount, reserve, supply)).Ok? <==>
            amount <= MAX && reserve <= MAX && supply <= MAX && QuotientFits(amount, reserve, supply)
  {
    if amount <= MAX && reserve <= MAX && supply <= MAX { QuotientExists(amount, reserve, supply); }
  }

  function CalcDepositLiquidity(supply: nat, ra: nat, rb: nat, aDesired: nat, bDesired: nat, aMin: nat, bMin: nat)
    : PoolResult<(nat, nat, nat)>
  {
    var (a, b) :- CalculateOptimalDeposit(ra, rb, aDesired, bDesired, aMin, bMin);
    var lhs :- ToBalance(MarkersFx(a, ra, supply));
    var rhs :- ToBalance(MarkersFx(b, rb, supply));
    Ok((a, b, if lhs <= rhs then lhs else rhs))
  }

  lemma MarkersLower(amount: nat, reserve: nat, supply: nat, price: nat, m: nat)
    requires price > 0 && supply > 0
    requires price * supply <= reserve * S && amount * S < m * price + price
    ensures amount * supply < (m + 1) * reserve
  {
    // (m + 1) * price * supply exceeds amount * S * supply
    var ps := price * supply;
    MulMono(amount * S + 1, (m + 1) * price, supply);
    assert ((m + 1) * price) * supply == (m + 1) * ps;
    MulMono(ps, reserve * S, m + 1);
    assert (amount * S + 1) * supply == (amount * supply) * S + supply;
    assert (m + 1) * (reserve * S) == ((m + 1) * reserve) * S;
    CancelLt(amount * supply, (m + 1) * reserve, S);
  }

  lemma MarkersUpper(amount: nat, reserve: nat, supply: nat, price: nat, m: nat)
    requires reserve * S < price * supply + supply && m * price <= amount * S
    ensures m * (reserve * S - supply) <= amount * S * supply
  {
    MulMono(reserve * S - supply, price * supply, m);
    assert m * (price * supply) == (m * price) * supply;
    MulMono(m * price, amount * S, supply);
  }

  /** The markers for one side, bracketed around the exact proportional share
      `amount * supply / reserve`: the inner floor may push them above it. */
  lemma MarkersBracket(amount: nat, reserve: nat, supply: nat)
    requires ToBalance(MarkersFx(amount, reserve, supply)).Ok?
    ensures var m := ToBalance(MarkersFx(amount, reserve, supply)).value;
            && amount * supply < (m + 1) * reserve
            && m * (reserve * S - supply) <= amount * S * supply
            && m <= MAX && supply <= MAX && 0 < supply <= reserve * S
  {
    var m := ToBalance(MarkersFx(amount, reserve, supply)).value;
    var price := Div(reserve, supply).v;
    assert price != 0;
    MulMono(1, price, supply);
    MarkersLower(amount, reserve, supply, price, m);
    MarkersUpper(amount, reserve, supply, price, m);
  }

  /** Dividing by a floored quotient, `a * S / (n * S / m)`: the result is at most the
      exact `a * m / n` precisely when the outer floor drops as much as the inner one made
      the result grow. */
  lemma NestedFloors(a: nat, n: nat, m: nat, inner: nat, r: nat, outer: nat, q: nat)
    requires inner * m + r == n * S
    requires outer * inner + q == a * S
    ensures outer * n <= a * m <==> outer * r <= q * m
  {
    assert (outer * inner + q) * m == outer * (inner * m) + q * m;
    assert outer * (n * S) == outer * (inner * m) + outer * r;
    assert (a * S) * m == (a * m) * S && outer * (n * S) == (outer * n) * S;
  }

  /** The markers for one side stay within the exact proportional share precisely when the
      second floor drops as much as the first one made them grow. */
  lemma MarkersWithinShareExactly(amount: nat, reserve: nat, supply: nat)
    requires ToBalance(MarkersFx(amount, reserve, supply)).Ok?
    ensures supply > 0 && Div(reserve, supply).Val? && Div(reserve, supply).v > 0
    ensures var m, price := ToBalance(MarkersFx(amount, reserve, supply)).value, Div(reserve, supply).v;
            m * reserve <= amount * supply <==> m * (reserve * S % supply) <= (amount * S % price) * supply
  {
    var m, price := ToBalance(MarkersFx(amount, reserve, supply)).value, Div(reserve, supply).v;
    NestedFloors(amount, reserve, supply, price, reserve * S % supply, m, amount * S % price);
  }

  /** The product of the markers and what flooring the scaled ratio `reserve * S / supply`
      drops is at most what is left of the amount after them, in scaled units. */
  predicate FloorsCompensate(markers: nat, amount: nat, reserve: nat, supply: nat)
    requires supply > 0
  {
    markers * (reserve * S % supply) <= (amount * S - markers * (reserve * S / supply)) * supply
  }

  /** The same for any number of markers up to what is calculated for one side. */
  lemma FewerWithinShareExactly(amount: nat, reserve: nat, supply: nat, markers: nat)
    requires ToBalance(MarkersFx(amount, reserve, supply)).Ok?
    requires markers <= ToBalance(MarkersFx(amount, reserve, supply)).value
    ensures supply > 0
    ensures markers * reserve <= amount * supply <==> FloorsCompensate(markers, amount, reserve, supply)
  {
    var price := Div(reserve, supply).v;
    assert price == reserve * S / supply;
    MulMono(markers, ToBalance(MarkersFx(amount, reserve, supply)).value, price);
    NestedFloors(amount, reserve, supply, price, reserve * S % supply, markers, amount * S - markers * price);
  }

  /** What a deposit mints, the lesser of the markers for its two sides, stays within the exact
      proportional share on either side precisely when the floors compensate on that side. */
  lemma MintedWithinShareExactly(supply: nat, ra: nat, rb: nat, aDesired: nat, bDesired: nat, aMin: nat, bMin: nat)
    requires CalcDepositLiquidity(supply, ra, rb, aDesired, bDesired, aMin, bMin).Ok?
    ensures supply > 0
    ensures var (a, b, m) := CalcDepositLiquidity(supply, ra, rb, aDesired, bDesired, aMin, bMin).value;
            && (m * ra <= a * supply <==> FloorsCompensate(m, a, ra, supply))
            && (m * rb <= b * supply <==> FloorsCompensate(m, b, rb, supply))
  {
    var (a, b, m) := CalcDepositLiquidity(supply, ra, rb, aDesired, bDesired, aMin, bMin).value;
    FewerWithinShareExactly(a, ra, supply, m);
    FewerWithinShareExactly(b, rb, supply, m);
  }

  lemma WholeQuoted()
    ensures CalculateQuote(3 * S, 3 * S + 1, 3 * S + 1) == Ok(3 * S)
  {
    assert Mul(3 * S, 3 * S + 1) == Val(9 * S + 3);
    assert Div(9 * S + 3, 3 * S + 1) == Val(3 * S);
  }

  lemma WholeMinted()
    ensures MarkersFx(3 * S, 3 * S + 1, 2 * S) == Val(2 * S)
    ensures !FloorsCompensate(2 * S, 3 * S, 3 * S + 1, 2 * S)
  {
    assert Div(3 * S + 1, 2 * S) == Val(3 * S / 2);
    assert Div(3 * S, 3 * S / 2) == Val(2 * S);
  }

  /** A deposit that mints more than the exact share: one unit of either asset short of the
      whole reserves mints as many markers as there are. */
  lemma MarkersCanExceed()
    ensures var supply, reserve := 2 * S, 3 * S + 1;
            && CalcDepositLiquidity(supply, reserve, reserve, 3 * S, 3 * S, 0, 0) == Ok((3 * S, 3 * S, 2 * S))
            && (2 * S) * reserve > (3 * S) * supply && !FloorsCompensate(2 * S, 3 * S, reserve, supply)
  {
    WholeQuoted();
    WholeMinted();
  }

  // ----- the first deposit

  function RootFx(x: nat, y: nat): Fx {
    var fx :- FromBalance(x);
    var fy :- FromBalance(y);
    MultiplyAndSqrt(fx, fy)
  }

  /** The geometric mean of the reserves, from below. */
  function PoolRoot(x: nat, y: nat): PoolResult<nat> {
    ToBalance(RootFx(x, y))
  }

  lemma PoolRootBelow(x: nat, y: nat)
    requires PoolRoot(x, y).Ok?
    ensures PoolRoot(x, y).value * PoolRoot(x, y).value <= x * y
    ensures PoolRoot(x, y).value <= MAX
    ensures PoolRoot(x, y).value > 0 ==> x > 0 && y > 0
  {
    MultiplyAndSqrtBelow(x, y);
  }

  /** A root exists for all balances that fit, and misses the geometric mean by rounding only: in
      scaled units, by at most the two amounts, three wholes, and one. */
  lemma PoolRootAbove(x: nat, y: nat)
    ensures PoolRoot(x, y).Ok? <==> x <= MAX && y <= MAX
    ensures PoolRoot(x, y).Ok? ==>
              var w := PoolRoot(x, y).value * S + (x + y + 3 * S + 1); (x * y) * (S * S) < w * w
  {
    if x <= MAX && y <= MAX {
      MultiplyAndSqrtExists(x, y);
      MultiplyAndSqrtAbove(x, y);
    }
  }

  // ----- withdrawals

  function ShareFx(reserve: nat, k: nat, supply: nat): Fx {
    var r :- FromBalance(reserve);
    var burned :- FromBalance(k);
    var product :- Mul(r, burned);
    var t :- FromBalance(supply);
    var total :- Add(t, MIN_LIQUIDITY);
    Div(product, total)
  }

  /** What burning `k` of `supply` markers pays out of a reserve. */
  function WithdrawShare(reserve: nat, k: nat, supply: nat): PoolResult<nat> {
    ToBalance(ShareFx(reserve, k, supply))
  }

  lemma PaidBelow(reserve: nat, k: nat, total: nat, paid: nat)
    requires paid * total <= reserve * k && reserve > 0 && k < total
    ensures paid < reserve
  {
    MulMono(k + 1, total, reserve);
    CancelLt(paid, reserve, total);
  }

  lemma WithdrawArithmetic(reserve: nat, k: nat, total: nat, product: nat, paid: nat)
    requires total > 0
    requires product * S <= reserve * k < product * S + S
    requires paid * total <= product * S < paid * total + total
    ensures paid * total <= reserve * k
    ensures reserve * k < (paid + 1) * total + S
  {
    assert (paid + 1) * total == paid * total + total;
  }

  /** The payment is at most the exact share of `supply + 1000` markers, strictly below
      the reserve when no more than the supply is burned, and short of the exact share
      by less than `1 + S / (supply + 1000)` base units. */
  lemma WithdrawBracket(reserve: nat, k: nat, supply: nat)
    requires WithdrawShare(reserve, k, supply).Ok?
    ensures var paid := WithdrawShare(reserve, k, supply).value;
            && paid * (supply + MIN_LIQUIDITY) <= reserve * k
            && reserve * k < (paid + 1) * (supply + MIN_LIQUIDITY) + S
            && (reserve > 0 && k <= supply ==> paid < reserve)
  {
    var paid, total := WithdrawShare(reserve, k, supply).value, supply + MIN_LIQUIDITY;
    var product := Mul(reserve, k).v;
    WithdrawArithmetic(reserve, k, total, product, paid);
    if reserve > 0 && k <= supply { PaidBelow(reserve, k, total, paid); }
  }

  /** A payment for markers that are issued exists exactly when the reserve and the floored
      product fit. */
  lemma WithdrawExists(reserve: nat, k: nat, supply: nat)
    requires k <= supply
    ensures WithdrawShare(reserve, k, supply).Ok? <==>
            reserve <= MAX && supply + MIN_LIQUIDITY <= MAX && reserve * k / S <= MAX
  {
    if reserve <= MAX && supply + MIN_LIQUIDITY <= MAX && reserve * k / S <= MAX {
      var product, total := reserve * k / S, supply + MIN_LIQUIDITY;
      MulMono(0, reserve, k);
      FloorMono(0, reserve * k, S);
      FloorBounds(reserve * k, S);
      MulMono(k, total, reserve);
      var q := FloorDiv(product * S, total);
      CancelLe(q, reserve, total);
    }
  }

  /** Reserve per `supply + 1000` never falls for the remaining holders. */
  lemma WithdrawFair(reserve: nat, k: nat, supply: nat)
    requires WithdrawShare(reserve, k, supply).Ok? && k <= supply && reserve > 0
    ensures var paid := WithdrawShare(reserve, k, supply).value;
            paid < reserve
            && (reserve - paid) * (supply + MIN_LIQUIDITY) >= reserve * (supply - k + MIN_LIQUIDITY)
  {
    WithdrawBracket(reserve, k, supply);
    var paid, total := WithdrawShare(reserve, k, supply).value, supply + MIN_LIQUIDITY;
    assert (reserve - paid) * total == reserve * total - paid * total;
    assert reserve * (total - k) == reserve * total - reserve * k;
  }

  lemma FairAfter(reserve: nat, k: nat, supply: nat, reserve': nat, before: nat, after: nat)
    requires WithdrawShare(reserve, k, supply).Ok? && k <= supply && reserve > 0
    requires reserve' == reserve - WithdrawShare(reserve, k, supply).value
    requires before == supply + MIN_LIQUIDITY && after == supply - k + MIN_LIQUIDITY
    ensures reserve' * before >= reserve * after
  {
    WithdrawFair(reserve, k, supply);
  }

  /** If the reserves back the markers, they still do after a fair payment on each side. */
  lemma BackingKept(ra: nat, rb: nat, ra': nat, rb': nat, total: nat, total': nat)
    requires total > 0 && total * total <= ra * rb
    requires ra' * total >= ra * total' && rb' * total >= rb * total'
    ensures total' * total' <= ra' * rb'
  {
    ProductLe(ra * total', ra' * total, rb * total', rb' * total);
    Regroup(ra, total', rb, total');
    Regroup(ra', total, rb', total);
    MulMono(total * total, ra * rb, total' * total');
    Regroup(total, total, total', total');
    assert total * total > 0;
    CancelLe(total' * total', ra' * rb', total * total);
  }

  // ----- swaps

  function OutputFx(x: nat, y: nat, d: nat): Fx {
    var fx :- FromBalance(x);
    var fy :- FromBalance(y);
    var fd :- FromBalance(d);
    var sum :- Add(fx, fd);
    var price :- Div(sum, fy);
    Div(fd, price)
  }

  /** The amount that leaves reserve `y` when `d` is added to reserve `x`. */
  function Output(x: nat, y: nat, d: nat): PoolResult<nat> {
    ToBalance(OutputFx(x, y, d))
  }

  /** An output exists exactly when the new reserve and both quotients fit, the price being more
      than nothing. */
  lemma OutputExists(x: nat, y: nat, d: nat)
    ensures Output(x, y, d).Ok? <==> x + d <= MAX && y <= MAX && QuotientFits(d, x + d, y)
    ensures Output(x, y, d).Ok? ==> Output(x, y, d).value == d * S / ((x + d) * S / y)
  {
    if x + d <= MAX && y <= MAX { QuotientExists(d, x + d, y); }
  }

  /** (output, fee) for an exact input; the fee is taken from the output or from the
      input. */
  function CalcOutputForExactInput(feeFromDestination: bool, x: nat, y: nat, xIn: nat): PoolResult<(nat, nat)> {
    if feeFromDestination then
      var y1 :- Output(x, y, xIn);
      var fee :- Fee(y1);
      Ok((y1, fee))
    else
      var fee :- Fee(xIn);
      if xIn < fee then Err(FixedWrapperCalculationFailed)
      else
        var yOut :- Output(x, y, xIn - fee);
        Ok((yOut, fee))
  }

  /** And so does a swap of an exact input, when three times what its fee is taken from fits too. */
  lemma ExactInputExists(feeFromDestination: bool, x: nat, y: nat, xIn: nat)
    ensures CalcOutputForExactInput(feeFromDestination, x, y, xIn).Ok? <==>
            && y <= MAX
            && if feeFromDestination then
                 x + xIn <= MAX && QuotientFits(xIn, x + xIn, y)
                 && 3 * (xIn * S / ((x + xIn) * S / y)) <= MAX
               else
                 var net := xIn - 3 * xIn / 1000;
                 3 * xIn <= MAX && x + net <= MAX && QuotientFits(net, x + net, y)
  {
    FeeExactly(xIn);
    if feeFromDestination {
      OutputExists(x, y, xIn);
      if Output(x, y, xIn).Ok? { FeeExactly(Output(x, y, xIn).value); }
    } else if 3 * xIn <= MAX {
      OutputExists(x, y, xIn - 3 * xIn / 1000);
    }
  }

  lemma FeeBelow(x: nat)
    requires Fee(x).Ok?
    ensures Fee(x).value <= x <= MAX
  {
    FeeExactly(x);
  }

  /** The fee of an exact-input swap never exceeds what it is taken from. */
  lemma ExactInputFee(feeFromDestination: bool, x: nat, y: nat, xIn: nat)
    requires CalcOutputForExactInput(feeFromDestination, x, y, xIn).Ok?
    ensures var (yOut, fee) := CalcOutputForExactInput(feeFromDestination, x, y, xIn).value;
            fee <= (if feeFromDestination then yOut else xIn) && yOut <= MAX
  {
    if feeFromDestination {
      FeeBelow(Output(x, y, xIn).value);
    } else {
      FeeBelow(xIn);
    }
  }

  /** The scaled price `floor((x + d) * S / y)` by which an input is divided. */
  function ScaledPrice(x: nat, y: nat, d: nat): nat
    requires y > 0
  {
    (x + d) * S / y
  }

  lemma ProductLower(x: nat, y: nat, d: nat, y1: nat, D: nat, r: nat)
    requires D * y + r == (x + d) * S
    requires y1 * D <= d * S
    ensures D * (x * y) - d * r <= D * ((x + d) * (y - y1))
  {
    // S * D * (x + d) * y1 = D * (D * y + r) * y1 <= S * (D * d * y + d * r)
    var n := y1 * D;
    assert ((x + d) * S) * n == (D * y + r) * n;
    MulMono(n, d * S, D * y + r);
    assert (D * y + r) * (d * S) == ((D * y + r) * d) * S;
    assert ((x + d) * S) * n == ((x + d) * n) * S;
    CancelLe((x + d) * n, (D * y + r) * d, S);
    assert (D * y + r) * d == D * (y * d) + d * r;
    assert (x + d) * n == D * ((x + d) * y1);
    assert (x + d) * (y - y1) == x * y + y * d - (x + d) * y1;
    assert D * (x * y + y * d - (x + d) * y1) == D * (x * y) + D * (y * d) - D * ((x + d) * y1);
  }

  lemma ProductUpper(x: nat, y: nat, d: nat, y1: nat, D: nat, r: nat)
    requires y > 0 && D * y + r == (x + d) * S
    requires d * S < y1 * D + D
    ensures (x + d) * (y - y1) < x * y + (x + d)
  {
    MulMono(d * S + 1, (y1 + 1) * D, y);
    assert ((y1 + 1) * D) * y == (y1 + 1) * (D * y);
    MulMono(D * y, (x + d) * S, y1 + 1);
    assert (y1 + 1) * ((x + d) * S) == ((x + d) * (y1 + 1)) * S;
    assert (d * S + 1) * y == (y * d) * S + y;
    CancelLt(y * d, (x + d) * (y1 + 1), S);
    assert (x + d) * (y - y1) == x * y + y * d - (x + d) * y1;
    assert (x + d) * (y1 + 1) == (x + d) * y1 + (x + d);
  }

  lemma ProductArithmetic(x: nat, y: nat, d: nat, y1: nat, D: nat, r: nat)
    requires y > 0 && D > 0 && r < y
    requires D * y + r == (x + d) * S
    requires y1 * D <= d * S < y1 * D + D
    ensures D * (x * y) - d * r <= D * ((x + d) * (y - y1))
    ensures (x + d) * (y - y1) < x * y + (x + d)
    ensures x * S >= y ==> y1 < y
  {
    ProductLower(x, y, d, y1, D, r);
    ProductUpper(x, y, d, y1, D, r);
    if x * S >= y {
      assert y1 * D < y * D;
      CancelLt(y1, y, D);
    }
  }

  /** The product of the reserves changes by rounding only: it may fall by at most
      `d * r / D`, where `D` is the scaled price and `r` what its floor drops, and it
      rises by less than the new reserve. */
  lemma ConstantProduct(x: nat, y: nat, d: nat)
    requires Output(x, y, d).Ok?
    ensures y > 0 && ScaledPrice(x, y, d) > 0
    ensures var y1, D, r := Output(x, y, d).value, ScaledPrice(x, y, d), (x + d) * S % y;
            && D * (x * y) - d * r <= D * ((x + d) * (y - y1))
            && (x + d) * (y - y1) < x * y + (x + d)
            && (x * S >= y ==> y1 < y)
  {
    var y1, D, r := Output(x, y, d).value, ScaledPrice(x, y, d), (x + d) * S % y;
    FloorBounds((x + d) * S, y);
    assert Div(x + d, y) == Val(D) && D != 0;
    assert D > 0 by { if D < 0 { MulMono(D, -1, y); } }
    ProductArithmetic(x, y, d, y1, D, r);
  }

  lemma NotFallen(x: nat, y: nat, d: nat, y1: nat)
    ensures x * y <= (x + d) * (y - y1) <==> y1 * (x + d) <= d * y
  {
    assert (x + d) * (y - y1) == x * y + d * y - y1 * (x + d);
  }

  lemma OutputNotFallen(x: nat, y: nat, d: nat, y1: nat, price: nat)
    requires Output(x, y, d) == Ok(y1) && y > 0 && price > 0 && price == ScaledPrice(x, y, d)
    ensures x * y <= (x + d) * (y - y1) <==> y1 * ((x + d) * S % y) <= (d * S % price) * y
  {
    assert Div(x + d, y) == Val(price) && Div(d, price) == Val(y1);
    NestedFloors(d, x + d, y, price, (x + d) * S % y, y1, d * S % price);
    NotFallen(x, y, d, y1);
  }

  /** The product does not fall precisely when flooring the output drops as much as
      flooring the price made it grow. */
  lemma ProductNotFallenExactly(x: nat, y: nat, d: nat)
    requires Output(x, y, d).Ok?
    ensures y > 0 && ScaledPrice(x, y, d) > 0
    ensures var y1, price := Output(x, y, d).value, ScaledPrice(x, y, d);
            x * y <= (x + d) * (y - y1) <==> y1 * ((x + d) * S % y) <= (d * S % price) * y
  {
    ConstantProduct(x, y, d);
    OutputNotFallen(x, y, d, Output(x, y, d).value, ScaledPrice(x, y, d));
  }

  /** The product does fall, and by as much as the bound allows: the scaled price here is
      four thirds, its floor one, so that two thirds of the reserve leave instead of half. */
  lemma ProductCanFall()
    ensures var x, y, d, y1 := 1, 3 * S / 2, 1, S;
            && Output(x, y, d) == Ok(y1)
            && (x + d) * (y - y1) < x * y
            && ScaledPrice(x, y, d) * ((x + d) * (y - y1)) == ScaledPrice(x, y, d) * (x * y) - d * ((x + d) * S % y)
  {
    var y := 3 * S / 2;
    assert Div(2, y) == Val(1);
    assert Div(1, 1) == Val(S);
  }

  /** From reserves `x, y` to `x', y'` the product changed by rounding only; it did not fall
      precisely when the outer floor made up for the inner one. */
  ghost predicate ProductKept(x: nat, y: nat, x': nat, y': int) {
    && y > 0 && x <= x'
    && var price := ScaledPrice(x, y, x' - x);
    && price > 0
    && price * (x * y) - (x' - x) * (x' * S % y) <= price * (x' * y')
    && x' * y' < x * y + x'
    && (x * y <= x' * y' <==> (y - y') * (x' * S % y) <= ((x' - x) * S % price) * y)
  }

  lemma OutputProduct(x: nat, y: nat, d: nat, x': nat, y': int)
    requires Output(x, y, d).Ok? && x' == x + d && y' == y - Output(x, y, d).value
    ensures ProductKept(x, y, x', y')
  {
    ConstantProduct(x, y, d);
    ProductNotFallenExactly(x, y, d);
  }

  /** In both fee modes: with the reserves after the swap as `x', y'`. */
  lemma ExactInputProduct(feeFromDestination: bool, x: nat, y: nat, xIn: nat, x': nat, y': int)
    requires CalcOutputForExactInput(feeFromDestination, x, y, xIn).Ok?
    requires var (yOut, fee) := CalcOutputForExactInput(feeFromDestination, x, y, xIn).value;
             x' == x + xIn - (if feeFromDestination then 0 else fee) && y' == y - yOut
    ensures ProductKept(x, y, x', y')
  {
    ExactInputFee(feeFromDestination, x, y, xIn);
    OutputProduct(x, y, x' - x, x', y');
  }

  lemma Exchange(a: int, b: int, c: int)
    ensures (a * b) * c == (a * c) * b
  {
  }

  lemma LossBound(lost: int, y: nat, d: nat, y1: nat, D: nat)
    requires D > 0 && lost * D <= y * d && d * S < (y1 + 1) * D
    ensures lost * S <= (y1 + 1) * y
  {
    MulMono(lost * D, y * d, S);
    Exchange(lost, D, S);
    Exchange(y, d, S);
    MulMono(d * S, (y1 + 1) * D, y);
    Exchange(y1 + 1, D, y);
    assert (y * S) * d == (d * S) * y;
    CancelLe(lost * S, (y1 + 1) * y, D);
  }

  lemma LossArithmetic(before: int, after: int, y: nat, d: nat, y1: nat, D: nat, r: nat)
    requires D > 0 && r <= y && d * S < (y1 + 1) * D
    requires D * before - d * r <= D * after
    ensures (before - after) * S <= (y1 + 1) * y
  {
    TimesDifference(before, after, D);
    MulMono(r, y, d);
    LossBound(before - after, y, d, y1, D);
  }

  lemma OutputLoss(x: nat, y: nat, d: nat, y1: nat)
    requires Output(x, y, d) == Ok(y1)
    ensures (x * y - (x + d) * (y - y1)) * S <= (y1 + 1) * y
  {
    ConstantProduct(x, y, d);
    var price := ScaledPrice(x, y, d);
    assert Div(x + d, y) == Val(price) && Div(d, price) == Val(y1);
    TimesSum(y1, 1, price);
    LossArithmetic(x * y, (x + d) * (y - y1), y, d, y1, price, (x + d) * S % y);
  }

  /** However it is rounded, the product falls by at most `(y1 + 1) * y / S`: one part in `S` of
      the reserve for each base unit that leaves it, and one more. */
  lemma ProductLoss(feeFromDestination: bool, x: nat, y: nat, xIn: nat, x': nat, y': int)
    requires CalcOutputForExactInput(feeFromDestination, x, y, xIn).Ok?
    requires var (yOut, fee) := CalcOutputForExactInput(feeFromDestination, x, y, xIn).value;
             x' == x + xIn - (if feeFromDestination then 0 else fee) && y' == y - yOut
    ensures (x * y - x' * y') * S <= (y - y' + 1) * y
  {
    ExactInputFee(feeFromDestination, x, y, xIn);
    OutputLoss(x, y, x' - x, y - y');
  }

  function InputFx(x: nat, rest: Fx, y1: nat): Fx {
    var fx :- FromBalance(x);
    var fr :- rest;
    var fy :- FromBalance(y1);
    var price :- Div(fr, fy);
    Div(fx, price)
  }

  /** The amount to add to reserve `x` for `y1` to leave the other reserve, `rest` of
      which is to remain. */
  function Input(x: nat, rest: Fx, y1: nat): PoolResult<nat> {
    ToBalance(InputFx(x, rest, y1))
  }

  function RestFx(y: nat, y1: nat): Fx {
    var fy :- FromBalance(y);
    var fy1 :- FromBalance(y1);
    Sub(fy, fy1)
  }

  function GrossFx(yOut: nat, kept: nat): Fx {
    var fy :- FromBalance(yOut);
    var fk :- FromBalance(kept);
    Div(fy, fk)
  }

  /** (input, fee) for an exact output. Taken from the output, the fee is what makes up
      the output grossed up by 1000/997; taken from the input, the remaining reserve is
      reduced by 0.3% first. */
  function CalcInputForExactOutput(feeFromDestination: bool, x: nat, y: nat, yOut: nat): PoolResult<(nat, nat)> {
    if feeFromDestination then
      var unitFee :- Fee(S);
      var y1 :- ToBalance(GrossFx(yOut, WrapSub(S, unitFee)));
      var xIn :- Input(x, RestFx(y, y1), y1);
      var fee :- ToBalance(Fit(y1 - yOut));
      Ok((xIn, fee))
    else
      var rest := WrapSub(y, yOut);
      var restFee :- Fee(rest);
      var xIn :- Input(x, FromBalance(WrapSub(rest, restFee)), yOut);
      var fee :- Fee(xIn);
      Ok((xIn, fee))
  }

  lemma PricePositive(x: nat, xIn: nat, price: int)
    requires x > 0 && price != 0
    requires price < 0 ==> xIn * price >= x * S
    ensures price > 0
  {
    if price < 0 { MulMono(price, 0, xIn); }
  }

  lemma CoverArithmetic(x: nat, rest: int, y1: nat, price: nat, xIn: nat)
    requires price > 0 && y1 > 0
    requires price * y1 <= rest * S
    requires x * S < xIn * price + price
    ensures rest > 0
    ensures x * y1 < (xIn + 1) * rest
  {
    MulMono(1, price, y1);
    var n, p := xIn + 1, price * y1;
    assert x * S + 1 <= n * price;
    MulMono(x * S + 1, n * price, y1);
    assert (n * price) * y1 == n * p;
    MulMono(p, rest * S, n);
    assert (x * S + 1) * y1 == (x * y1) * S + y1;
    assert n * (rest * S) == (n * rest) * S;
    CancelLt(x * y1, n * rest, S);
  }

  /** An input is charged at least the exact price, less one base unit. */
  lemma InputCovers(x: nat, rest: Fx, y1: nat)
    requires x > 0 && Input(x, rest, y1).Ok?
    ensures rest.Val? && rest.v > 0 && y1 > 0
    ensures x * y1 < (Input(x, rest, y1).value + 1) * rest.v
  {
    var xIn, price := Input(x, rest, y1).value, Div(rest.v, y1).v;
    PricePositive(x, xIn, price);
    CoverArithmetic(x, rest.v, y1, price, xIn);
  }

  lemma BoundArithmetic(x: nat, rest: int, y1: nat, price: nat, xIn: nat)
    requires rest * S <= price * y1 + y1 && xIn * price <= x * S
    ensures xIn * (rest * S - y1) <= (x * S) * y1
  {
    MulMono(rest * S - y1, price * y1, xIn);
    assert (price * y1) * xIn == (xIn * price) * y1;
    MulMono(xIn * price, x * S, y1);
  }

  /** And at most the exact price of what one base unit for each whole less would leave. */
  lemma InputBounded(x: nat, rest: Fx, y1: nat)
    requires x > 0 && Input(x, rest, y1).Ok?
    ensures rest.Val? && Input(x, rest, y1).value * (rest.v * S - y1) <= (x * S) * y1
  {
    var xIn, price := Input(x, rest, y1).value, Div(rest.v, y1).v;
    PricePositive(x, xIn, price);
    BoundArithmetic(x, rest.v, y1, price, xIn);
  }

  /** What is kept of one whole after the fee. */
  const KEPT: int := 997_000_000_000_000_000

  lemma UnitKept()
    ensures Fee(S) == Ok(3_000_000_000_000_000)
    ensures WrapSub(S, 3_000_000_000_000_000) == KEPT
  {
    FeeExactly(S);
  }

  /** The output grossed up by 1000/997, of which the fee is taken. */
  lemma GrossExists(yOut: nat)
    ensures ToBalance(GrossFx(yOut, KEPT)).Ok? <==> yOut <= MAX && yOut * 1000 / 997 <= MAX
    ensures ToBalance(GrossFx(yOut, KEPT)).Ok? ==> ToBalance(GrossFx(yOut, KEPT)).value == yOut * 1000 / 997
  {
    if yOut <= MAX {
      var q := yOut * 1000 / 997;
      assert q * KEPT <= yOut * S < q * KEPT + KEPT;
      FloorUnique(yOut * S, KEPT, q);
    }
  }

  lemma GrossArithmetic(x: nat, y: nat, yOut: nat, y1: nat, xIn: nat)
    requires yOut <= y1 < y && x * y1 < (xIn + 1) * (y - y1)
    ensures x * y < (x + xIn + 1) * (y - yOut)
  {
    MulMono(y - y1, y - yOut, x + xIn + 1);
    assert (x + (xIn + 1)) * (y - y1) == x * y - x * y1 + (xIn + 1) * (y - y1);
  }

  lemma DestinationFeeExactOutput(x: nat, y: nat, yOut: nat)
    requires x > 0
    requires CalcInputForExactOutput(true, x, y, yOut).Ok?
    ensures var (xIn, fee) := CalcInputForExactOutput(true, x, y, yOut).value;
            yOut < y && fee <= yOut && x * y < (x + xIn + 1) * (y - yOut)
  {
    UnitKept();
    GrossExists(yOut);
    var y1 := yOut * 1000 / 997;
    InputCovers(x, RestFx(y, y1), y1);
    GrossArithmetic(x, y, yOut, y1, Input(x, RestFx(y, y1), y1).value);
  }

  lemma KeptAtMost(rest: nat, xIn: nat, kept: nat)
    requires 1000 * kept <= 997 * rest + 999
    ensures 1000 * ((xIn + 1) * kept) <= 997 * (xIn * rest) + 997 * rest + 999 * (xIn + 1)
  {
    MulMono(1000 * kept, 997 * rest + 999, xIn + 1);
    assert (1000 * kept) * (xIn + 1) == 1000 * ((xIn + 1) * kept);
    assert (997 * rest + 999) * (xIn + 1) == 997 * (xIn * rest) + 997 * rest + 999 * (xIn + 1);
  }

  lemma NetAtLeast(rest: nat, xIn: nat, net: nat)
    requires 997 * xIn <= 1000 * net
    ensures 997 * (xIn * rest) <= 1000 * (net * rest)
  {
    MulMono(997 * xIn, 1000 * net, rest);
  }

  lemma Expand(a: int, b: int, c: int, r: int)
    ensures (a + b + c) * r == a * r + b * r + c * r
  {
  }

  lemma SourceFeeArithmetic(x: nat, y: nat, rest: nat, yOut: nat, xIn: nat, kept: nat)
    requires kept == rest - 3 * rest / 1000 && y == rest + yOut
    requires x * yOut < (xIn + 1) * kept
    ensures x * y < (x + xIn - 3 * xIn / 1000 + 1) * (y - yOut) + (xIn + 1)
  {
    var net := xIn - 3 * xIn / 1000;
    KeptAtMost(rest, xIn, kept);
    NetAtLeast(rest, xIn, net);
    Expand(x, net, 1, rest);
    assert x * y == x * rest + x * yOut;
  }

  lemma SourceFeeExactOutput(x: nat, y: nat, yOut: nat)
    requires x > 0 && y < U128 && yOut < U128
    requires CalcInputForExactOutput(false, x, y, yOut).Ok?
    ensures var (xIn, fee) := CalcInputForExactOutput(false, x, y, yOut).value;
            yOut < y && fee <= xIn && x * y < (x + xIn - fee + 1) * (y - yOut) + (xIn + 1)
  {
    var rest := WrapSub(y, yOut);
    FeeExactly(rest);
    var kept := rest - 3 * rest / 1000;
    assert kept < U128 && WrapSub(rest, 3 * rest / 1000) == kept;
    InputCovers(x, FromBalance(kept), yOut);
    assert yOut < y;
    var xIn := Input(x, FromBalance(kept), yOut).value;
    FeeExactly(xIn);
    SourceFeeArithmetic(x, y, rest, yOut, xIn, kept);
  }

  /** A quoted exact-output swap: the fee never exceeds what it is taken from, so the
      subtraction that pays it cannot underflow; and one more base unit of input would
      make the product of the reserves grow, taking the fee from the output, or keep it
      but for one unit of either reserve, taking the fee from the input. */
  lemma ExactOutput(feeFromDestination: bool, x: nat, y: nat, yOut: nat)
    requires x > 0 && y < U128 && yOut < U128
    requires CalcInputForExactOutput(feeFromDestination, x, y, yOut).Ok?
    ensures var (xIn, fee) := CalcInputForExactOutput(feeFromDestination, x, y, yOut).value;
            && yOut < y
            && fee <= (if feeFromDestination then yOut else xIn)
            && (feeFromDestination ==> x * y < (x + xIn + 1) * (y - yOut))
            && (!feeFromDestination ==> x * y < (x + xIn - fee + 1) * (y - yOut) + (xIn + 1))
  {
    if feeFromDestination {
      DestinationFeeExactOutput(x, y, yOut);
    } else {
      SourceFeeExactOutput(x, y, yOut);
    }
  }

  /** The input charged for `y1` out of a reserve of which `left` is to remain, by the exact price
      `x * y1 / left`: from less than a base unit below it up to what one base unit of `left` for
      each whole of `y1` makes of it. */
  predicate ChargedFor(x: nat, left: int, y1: nat, xIn: nat) {
    x * y1 < (xIn + 1) * left && xIn * (left * S - y1) <= (x * S) * y1
  }

  /** Both fee modes of an exact output: `yOut * 1000 / 997` leaves and 3/997 of the output is the
      fee, or 99.7% of what remains is to be left, and 0.3% of the input is the fee. */
  predicate ExactOutputCharged(feeFromDestination: bool, x: nat, y: nat, yOut: nat, xIn: nat, fee: nat) {
    if feeFromDestination then
      ChargedFor(x, y - yOut * 1000 / 997, yOut * 1000 / 997, xIn) && fee == 3 * yOut / 997
    else
      ChargedFor(x, y - yOut - 3 * (y - yOut) / 1000, yOut, xIn) && fee == 3 * xIn / 1000
  }

  lemma DestinationFeeCharged(x: nat, y: nat, yOut: nat)
    requires x > 0 && CalcInputForExactOutput(true, x, y, yOut).Ok?
    ensures var (xIn, fee) := CalcInputForExactOutput(true, x, y, yOut).value;
            ExactOutputCharged(true, x, y, yOut, xIn, fee)
  {
    UnitKept();
    GrossExists(yOut);
    var y1 := yOut * 1000 / 997;
    InputCovers(x, RestFx(y, y1), y1);
    InputBounded(x, RestFx(y, y1), y1);
  }

  lemma SourceFeeCharged(x: nat, y: nat, yOut: nat)
    requires x > 0 && y < U128 && yOut < U128 && CalcInputForExactOutput(false, x, y, yOut).Ok?
    ensures var (xIn, fee) := CalcInputForExactOutput(false, x, y, yOut).value;
            ExactOutputCharged(false, x, y, yOut, xIn, fee)
  {
    var rest := WrapSub(y, yOut);
    FeeExactly(rest);
    var kept := rest - 3 * rest / 1000;
    assert kept < U128 && WrapSub(rest, 3 * rest / 1000) == kept;
    InputCovers(x, FromBalance(kept), yOut);
    InputBounded(x, FromBalance(kept), yOut);
    FeeExactly(Input(x, FromBalance(kept), yOut).value);
    SourceFeeExactOutput(x, y, yOut);
  }

  /** The input of an exact-output swap is the exact price within these bounds, and its fee exact. */
  lemma ExactOutputPrice(feeFromDestination: bool, x: nat, y: nat, yOut: nat)
    requires x > 0 && y < U128 && yOut < U128
    requires CalcInputForExactOutput(feeFromDestination, x, y, yOut).Ok?
    ensures var (xIn, fee) := CalcInputForExactOutput(feeFromDestination, x, y, yOut).value;
            ExactOutputCharged(feeFromDestination, x, y, yOut, xIn, fee)
  {
    if feeFromDestination { DestinationFeeCharged(x, y, yOut); } else { SourceFeeCharged(x, y, yOut); }
  }

  lemma InputExists(x: nat, left: nat, y1: nat)
    ensures Input(x, FromBalance(left), y1).Ok? <==>
            x <= MAX && left <= MAX && y1 <= MAX && QuotientFits(x, left, y1)
    ensures Input(x, FromBalance(left), y1).Ok? ==>
            Input(x, FromBalance(left), y1).value == x * S / (left * S / y1)
  {
    if x <= MAX && left <= MAX && y1 <= MAX { QuotientExists(x, left, y1); }
  }

  lemma DestinationFeeExists(x: nat, y: nat, yOut: nat)
    requires x > 0 && y <= MAX
    ensures CalcInputForExactOutput(true, x, y, yOut).Ok? <==>
            && x <= MAX && yOut <= MAX && yOut * 1000 / 997 < y
            && QuotientFits(x, y - yOut * 1000 / 997, yOut * 1000 / 997)
  {
    var y1 := yOut * 1000 / 997;
    UnitKept();
    GrossExists(yOut);
    if y1 < y {
      InputExists(x, y - y1, y1);
    } else if Input(x, RestFx(y, y1), y1).Ok? {
      InputCovers(x, RestFx(y, y1), y1);
    }
  }

  lemma SourceFeeExists(x: nat, y: nat, yOut: nat)
    requires x > 0 && y <= MAX
    ensures CalcInputForExactOutput(false, x, y, yOut).Ok? <==>
            && x <= MAX && yOut <= y && 3 * (y - yOut) <= MAX
            && var left := (y - yOut) - 3 * (y - yOut) / 1000;
            QuotientFits(x, left, yOut) && 3 * (x * S / (left * S / yOut)) <= MAX
  {
    var rest := WrapSub(y, yOut);
    FeeExactly(rest);
    if yOut <= y && 3 * rest <= MAX {
      var left := rest - 3 * rest / 1000;
      InputExists(x, left, yOut);
      if Input(x, FromBalance(left), yOut).Ok? { FeeExactly(Input(x, FromBalance(left), yOut).value); }
    }
  }

  /** A swap for an exact output exists exactly when less than the reserve leaves it, and the
      quotients and three times what the fees are taken from fit. */
  lemma ExactOutputExists(feeFromDestination: bool, x: nat, y: nat, yOut: nat)
    requires x > 0 && y <= MAX
    ensures CalcInputForExactOutput(feeFromDestination, x, y, yOut).Ok? <==>
            && x <= MAX
            && if feeFromDestination then
                 var y1 := yOut * 1000 / 997;
                 yOut <= MAX && y1 < y && QuotientFits(x, y - y1, y1)
               else
                 && yOut <= y && 3 * (y - yOut) <= MAX
                 && var left := (y - yOut) - 3 * (y - yOut) / 1000;
                 QuotientFits(x, left, yOut) && 3 * (x * S / (left * S / yOut)) <= MAX
  {
    if feeFromDestination {
      DestinationFeeExists(x, y, yOut);
    } else {
      SourceFeeExists(x, y, yOut);
    }
  }

  /** Taken from an exact output, the fee is the floored 3/997 of it. */
  lemma DestinationFee(x: nat, y: nat, yOut: nat)
    ensures CalcInputForExactOutput(true, x, y, yOut).Ok? ==>
              CalcInputForExactOutput(true, x, y, yOut).value.1 == 3 * yOut / 997
  {
    UnitKept();
    if ToBalance(GrossFx(yOut, KEPT)).Ok? {
      GrossExists(yOut);
      assert yOut * 1000 / 997 - yOut == 3 * yOut / 997;
    }
  }
}
