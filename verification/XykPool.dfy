/** The operations of the constant-product pools as functions of the ledger state:
    each one validates a request, which determines all its amounts, and then moves the
    amounts and refreshes the reserves cache. */
module XykPool {
  import opened FixedPoint
  import opened Swaps
  import opened XykMath
  import opened Ledger

  // ----- bounds

  datatype Bounds =
    | Calculated(value: nat)
    | Desired(value: nat)
    | Min(bound: nat)
    | Max(bound: nat)
    | RangeFromDesiredToMin(desired: nat, min: nat)
    | Decide
  {
    /** The amount of a bound that determines one. */
    function Known(): Option<nat> {
      match this
      case Calculated(v) => Some(v)
      case Desired(v) => Some(v)
      case RangeFromDesiredToMin(d, _) => Some(d)
      case _ => None
    }

    predicate Meets(v: nat) {
      match this
      case Min(b) => b <= v
      case Max(b) => b >= v
      case RangeFromDesiredToMin(d, m) => d >= v && v <= m
      case Calculated(x) => x == v
      case Desired(x) => x == v
      case Decide => false
    }
  }

  // ----- pairs

  /** One side of every pair is the base asset; the other one identifies the pool. */
  function TargetOf(a: Asset, b: Asset): PoolResult<Asset> {
    if a == b then Err(AssetsMustNotBeSame)
    else if a == Base then Ok(b)
    else if b == Base then Ok(a)
    else Err(BaseAssetIsNotMatchedWithAnyAssetArguments)
  }

  predicate IsPair(a: Asset, b: Asset, target: Asset) {
    target != Base && ((a == Base && b == target) || (a == target && b == Base))
  }

  function Reserve(st: State, asset: Asset, target: Asset): nat {
    st.Free(asset, PoolOf(target))
  }

  /** The cache entry takes the pool account's balances. */
  function Synced(st: State, a: Asset, b: Asset, target: Asset): State {
    ReservesUpdated(st, a, b, (Reserve(st, a, target), Reserve(st, b, target)))
  }

  // ----- initialisation

  function Initialised(st: State, a: Asset, b: Asset): PoolResult<State> {
    var target :- TargetOf(a, b);
    if PoolOf(target) in st.registered then Err(PoolIsAlreadyInitialized)
    else Ok(st.(registered := st.registered + {PoolOf(target), FeesOf(target)}))
  }

  // ----- swaps

  datatype SwapAmounts = SwapAmounts(source: nat, destination: nat, fee: nat)

  /** The fee is taken from the destination exactly when that is the base asset. */
  predicate FeeFromDestination(source: Asset, destination: Asset) {
    source != Base && destination == Base
  }

  function DecideSwap(fromDestination: bool, x: nat, y: nat, source: Bounds,
                      destination: Bounds): PoolResult<SwapAmounts> {
    match (source, destination)
    case (Desired(sa), Desired(ta)) =>
      if sa == 0 || ta == 0 then Err(ZeroValueInAmountParameter)
      else
        var output :- CalcOutputForExactInput(fromDestination, x, y, sa);
        var input :- CalcInputForExactOutput(fromDestination, x, y, ta);
        if output.0 != ta || input.0 != sa || output.1 != input.1 then Err(PoolPairRatioAndPairSwapRatioIsDifferent)
        else Ok(SwapAmounts(sa, ta, output.1))
    case (Desired(sa), Min(taMin)) =>
      if sa == 0 then Err(ZeroValueInAmountParameter)
      else
        var output :- CalcOutputForExactInput(fromDestination, x, y, sa);
        if output.0 < taMin then Err(CalculatedValueIsOutOfDesiredBounds)
        else Ok(SwapAmounts(sa, output.0, output.1))
    case (Desired(sa), _) =>
      if sa == 0 then Err(ZeroValueInAmountParameter) else Err(ImpossibleToDecideAssetPairAmounts)
    case (Max(saMax), Desired(ta)) =>
      if ta == 0 then Err(ZeroValueInAmountParameter)
      else
        var input :- CalcInputForExactOutput(fromDestination, x, y, ta);
        if input.0 > saMax then Err(CalculatedValueIsOutOfDesiredBounds)
        else Ok(SwapAmounts(input.0, ta, input.1))
    case (_, Desired(ta)) =>
      if ta == 0 then Err(ZeroValueInAmountParameter) else Err(ImpossibleToDecideAssetPairAmounts)
    case _ => Err(ImpossibleToDecideAssetPairAmounts)
  }

  function SquaredDriftFx(x: nat, y: nat, added: nat, removed: nat): Fx {
    var fx :- FromBalance(x);
    var fy :- FromBalance(y);
    var fa :- FromBalance(added);
    var fr :- FromBalance(removed);
    var x' :- Add(fx, fa);
    var y' :- Sub(fy, fr);
    var before :- Div(fx, fy);
    var after :- Div(x', y');
    var drift :- Sub(after, before);
    Mul(drift, drift)
  }

  /** The pool stays valid if the square of the change of its ratio is below 100; an
      emptied reserve makes the calculation itself fail. */
  function PostSwapCheck(x: nat, y: nat, added: nat, removed: nat): PoolResult<()> {
    var drift :- ToBalance(SquaredDriftFx(x, y, added, removed));
    if drift < 100 * S then Ok(()) else Err(PoolBecameInvalidAfterOperation)
  }

  lemma DriftSquared(drift: nat)
    ensures drift * drift / S < 100 * S <==> drift < 10 * S
  {
    FloorBounds(drift * drift, S);
    if drift < 10 * S { SquareLe(drift, 10 * S - 1); } else { SquareLe(10 * S, drift); }
    if drift * drift / S < 100 * S { MulMono(drift * drift / S + 1, 100 * S, S); }
  }

  lemma RatioRises(n: nat, n': nat, d: nat, d': nat)
    requires 0 < d' <= d && n <= n'
    ensures 0 <= n / d <= n' / d'
  {
    FloorBounds(n, d);
    FloorMono(0, n, d);
    FloorMono(n, n', d');
    MulMono(d', d, n / d);
    FloorBounds(n, d');
    if n / d > n / d' { MulMono(n / d' + 1, n / d, d'); }
  }

  /** The ratio of the reserves rises by less than ten. */
  predicate RatioKept(x: nat, y: nat, added: nat, removed: nat) {
    && x + added <= MAX && removed < y <= MAX
    && (x + added) * S / (y - removed) <= MAX
    && (x + added) * S / (y - removed) - x * S / y < 10 * S
  }

  /** Which swaps the check accepts. */
  lemma PostSwapExactly(x: nat, y: nat, added: nat, removed: nat)
    requires removed <= y
    ensures PostSwapCheck(x, y, added, removed).Ok? <==> RatioKept(x, y, added, removed)
  {
    if x + added <= MAX && removed < y <= MAX {
      MulMono(x, x + added, S);
      RatioRises(x * S, (x + added) * S, y, y - removed);
      var drift := (x + added) * S / (y - removed) - x * S / y;
      DriftSquared(drift);
      FloorMono(0, drift * drift, S);
    }
  }

  function ValidatedSwap(st: State, target: Asset, sender: Account, source: Asset, destination: Asset,
                         sourceBounds: Bounds, destinationBounds: Bounds): PoolResult<SwapAmounts>
  {
    var x, y := Reserve(st, source, target), Reserve(st, destination, target);
    if PoolOf(target) !in st.registered then Err(TechAccountIdIsNotRegistered)
    else if st.Free(source, sender) == 0 then Err(AccountBalanceIsInvalid)
    else if x == 0 && y == 0 then Err(PoolIsEmpty)
    else if x == 0 || y == 0 then Err(PoolIsInvalid)
    else
      var amounts :- DecideSwap(FeeFromDestination(source, destination), x, y, sourceBounds, destinationBounds);
      if st.Free(source, sender) < amounts.source then Err(SourceBalanceIsNotLargeEnough)
      else if y < amounts.destination then Err(TargetBalanceIsNotLargeEnough)
      else
        var _ :- PostSwapCheck(x, y, amounts.source, amounts.destination);
        Ok(amounts)
  }

  function ReservedSwap(st: State, target: Asset, sender: Account, receiver: Account, source: Asset, destination: Asset,
                        amounts: SwapAmounts): PoolResult<State>
  {
    var pool, fees := PoolOf(target), FeesOf(target);
    if FeeFromDestination(source, destination) then
      var st1 :- TransferredIn(st, source, sender, pool, amounts.source);
      var st2 :- TransferredOut(st1, destination, pool, fees, amounts.fee);
      var st3 :- TransferredOut(st2, destination, pool, receiver, WrapSub(amounts.destination, amounts.fee));
      Ok(Synced(st3, source, destination, target))
    else
      var st1 :- TransferredIn(st, source, sender, pool, WrapSub(amounts.source, amounts.fee));
      var st2 :- TransferredIn(st1, source, sender, fees, amounts.fee);
      var st3 :- TransferredOut(st2, destination, pool, receiver, amounts.destination);
      Ok(Synced(st3, source, destination, target))
  }

  function SourceBounds(request: SwapAmount): Bounds {
    if request.variant.WithDesiredInput? then Desired(request.amount) else Max(request.limit)
  }

  function DestinationBounds(request: SwapAmount): Bounds {
    if request.variant.WithDesiredInput? then Min(request.limit) else Desired(request.amount)
  }

  function SwapOutcome(source: Asset, destination: Asset, request: SwapAmount, amounts: SwapAmounts): Outcome {
    if request.variant.WithDesiredOutput? then Outcome(amounts.source, amounts.fee)
    else if FeeFromDestination(source, destination) then Outcome(WrapSub(amounts.destination, amounts.fee), amounts.fee)
    else Outcome(amounts.destination, amounts.fee)
  }

  function Exchanged(st: State, sender: Account, receiver: Account, source: Asset, destination: Asset,
                     request: SwapAmount)
    : PoolResult<(State, Outcome)>
  {
    var target :- TargetOf(source, destination);
    var amounts :- ValidatedSwap(st, target, sender, source, destination, SourceBounds(request),
                                 DestinationBounds(request));
    var st' :- ReservedSwap(st, target, sender, receiver, source, destination, amounts);
    Ok((st', SwapOutcome(source, destination, request, amounts)))
  }

  // ----- deposits

  datatype DepositAmounts = DepositAmounts(a: nat, b: nat, markers: nat)

  function DecideDeposit(supply: nat, x: nat, y: nat, a: Bounds, b: Bounds): PoolResult<DepositAmounts> {
    match (a, b)
    case (RangeFromDesiredToMin(aDesired, aMin), RangeFromDesiredToMin(bDesired, bMin)) =>
      if aDesired < aMin || bDesired < bMin then Err(RangeValuesIsInvalid)
      else
        var r :- CalcDepositLiquidity(supply, x, y, aDesired, bDesired, aMin, bMin);
        Ok(DepositAmounts(r.0, r.1, r.2))
    case _ => Err(ImpossibleToDecideDepositLiquidityAmounts)
  }

  function InitialDeposit(a: Bounds, b: Bounds): PoolResult<(nat, nat)> {
    match (a.Known(), b.Known())
    case (Some(x), Some(y)) => Ok((x, y))
    case _ => Err(InitialLiqudityDepositRatioMustBeDefined)
  }

  function ValidatedDeposit(st: State, target: Asset, sender: Account, a: Asset, b: Asset, aBounds: Bounds,
                            bBounds: Bounds)
    : PoolResult<DepositAmounts>
  {
    var x, y := Reserve(st, a, target), Reserve(st, b, target);
    var empty := x == 0 && y == 0;
    if PoolOf(target) !in st.registered then Err(TechAccountIdIsNotRegistered)
    else if st.Free(a, sender) == 0 || st.Free(b, sender) == 0 then Err(AccountBalanceIsInvalid)
    else if !empty && (x == 0 || y == 0) then Err(PoolIsInvalid)
    else
      var initial :- if empty then InitialDeposit(aBounds, bBounds) else Ok((x, y));
      var root :- PoolRoot(initial.0, initial.1);
      var amounts :- if empty then Ok(DepositAmounts(initial.0, initial.1, root))
                     else DecideDeposit(st.Issued(Marker(target)), x, y, aBounds, bBounds);
      if MIN_LIQUIDITY > root && amounts.markers < MIN_LIQUIDITY - root then
        Err(DestinationAmountOfLiquidityIsNotLargeEnough)
      else if st.Free(a, sender) < amounts.a then Err(SourceBaseAmountIsNotLargeEnough)
      else if st.Free(b, sender) < amounts.b then Err(TargetBaseAmountIsNotLargeEnough)
      else Ok(if empty then amounts.(markers := WrapSub(amounts.markers, MIN_LIQUIDITY)) else amounts)
  }

  function ReservedDeposit(st: State, target: Asset, sender: Account, a: Asset, b: Asset,
                           amounts: DepositAmounts): PoolResult<State> {
    var st1 :- TransferredIn(st, a, sender, PoolOf(target), amounts.a);
    var st2 :- TransferredIn(st1, b, sender, PoolOf(target), amounts.b);
    var st3 :- Minted(st2, Marker(target), sender, amounts.markers);
    Ok(Synced(st3, a, b, target))
  }

  datatype DepositRequest = DepositRequest(aDesired: nat, bDesired: nat, aMin: nat, bMin: nat)

  function Deposited(st: State, sender: Account, a: Asset, b: Asset, request: DepositRequest): PoolResult<State> {
    var target :- TargetOf(a, b);
    if request.aDesired < request.aMin || request.bDesired < request.bMin then Err(InvalidMinimumBoundValueOfBalance)
    else
      var amounts :- ValidatedDeposit(st, target, sender, a, b,
                                      RangeFromDesiredToMin(request.aDesired, request.aMin),
                                      RangeFromDesiredToMin(request.bDesired, request.bMin));
      ReservedDeposit(st, target, sender, a, b, amounts)
  }

  // ----- withdrawals

  datatype WithdrawAmounts = WithdrawAmounts(a: nat, b: nat, markers: nat)

  function DecideWithdraw(supply: nat, x: nat, y: nat, markers: Bounds, a: Bounds,
                          b: Bounds): PoolResult<WithdrawAmounts> {
    match markers
    case Desired(k) =>
      if k == 0 then Err(ZeroValueInAmountParameter)
      else
        var recomX :- WithdrawShare(x, k, supply);
        var recomY :- WithdrawShare(y, k, supply);
        if a.Desired? && a.value != recomX then Err(InvalidWithdrawLiquidityBasicAssetAmount)
        else if !a.Meets(recomX) then Err(CalculatedValueIsNotMeetsRequiredBoundaries)
        else if b.Desired? && b.value != recomY then Err(InvalidWithdrawLiquidityTargetAssetAmount)
        else if !b.Meets(recomY) then Err(CalculatedValueIsNotMeetsRequiredBoundaries)
        else Ok(WithdrawAmounts(recomX, recomY, k))
    case _ => Err(ImpossibleToDecideDepositLiquidityAmounts)
  }

  function ValidatedWithdraw(st: State, target: Asset, sender: Account, a: Asset, b: Asset,
                             markers: Bounds, aBounds: Bounds, bBounds: Bounds): PoolResult<WithdrawAmounts>
  {
    var x, y := Reserve(st, a, target), Reserve(st, b, target);
    var held := st.Free(Marker(target), sender);
    if PoolOf(target) !in st.registered then Err(TechAccountIdIsNotRegistered)
    else if held == 0 then Err(AccountBalanceIsInvalid)
    else if x == 0 && y == 0 then Err(PoolIsEmpty)
    else if x == 0 || y == 0 then Err(PoolIsInvalid)
    else
      var amounts :- DecideWithdraw(st.Issued(Marker(target)), x, y, markers, aBounds, bBounds);
      if held < amounts.markers then Err(SourceBalanceOfLiquidityTokensIsNotLargeEnough)
      else Ok(amounts)
  }

  function ReservedWithdraw(st: State, target: Asset, sender: Account, a: Asset, b: Asset,
                            amounts: WithdrawAmounts): PoolResult<State> {
    var st1 :- TransferredOut(st, a, PoolOf(target), sender, amounts.a);
    var st2 :- TransferredOut(st1, b, PoolOf(target), sender, amounts.b);
    var st3 :- Burned(st2, Marker(target), sender, amounts.markers);
    Ok(Synced(st3, a, b, target))
  }

  datatype WithdrawRequest = WithdrawRequest(markers: nat, aMin: nat, bMin: nat)

  function Withdrawn(st: State, sender: Account, a: Asset, b: Asset, request: WithdrawRequest): PoolResult<State> {
    var target :- TargetOf(a, b);
    var amounts :- ValidatedWithdraw(st, target, sender, a, b, Desired(request.markers), Min(request.aMin),
                                     Min(request.bMin));
    ReservedWithdraw(st, target, sender, a, b, amounts)
  }
}
