/** The pool operations as the chain runs them: an action object fills in its own open
    fields while it is validated, and then moves balances in storage, inside a
    transaction that is rolled back on failure. */
module XykActions {
  import opened FixedPoint
  import opened Swaps
  import opened XykMath
  import opened Ledger
  import opened XykPool

  class PairSwapAction {
    var clientAccount: Option<Account>
    var receiverAccount: Option<Account>
    const target: Asset
    const source: Asset
    const destination: Asset
    var sourceAmount: Bounds
    var destinationAmount: Bounds
    var fee: Option<nat>
    var feeAccount: Option<Account>
    var getFeeFromDestination: Option<bool>

    constructor (receiver: Account, target: Asset, source: Asset, destination: Asset, sourceAmount: Bounds,
                 destinationAmount: Bounds)
      ensures Unprepared() && receiverAccount == Some(receiver)
      ensures this.target == target && this.source == source && this.destination == destination
      ensures this.sourceAmount == sourceAmount && this.destinationAmount == destinationAmount
    {
      clientAccount, receiverAccount := None, Some(receiver);
      this.target, this.source, this.destination := target, source, destination;
      this.sourceAmount, this.destinationAmount := sourceAmount, destinationAmount;
      fee, feeAccount, getFeeFromDestination := None, None, None;
    }

    predicate Unprepared()
      reads this
    {
      clientAccount.None? && receiverAccount.Some? && fee.None? && feeAccount.None? && getFeeFromDestination.None?
    }

    /** Every open field is filled in. */
    predicate Prepared(client: Account)
      reads this
    {
      && clientAccount == Some(client) && receiverAccount.Some?
      && sourceAmount.Known().Some? && destinationAmount.Known().Some?
      && fee.Some? && feeAccount == Some(FeesOf(target))
      && getFeeFromDestination == Some(FeeFromDestination(source, destination))
    }

    function Amounts(): SwapAmounts
      requires sourceAmount.Known().Some? && destinationAmount.Known().Some? && fee.Some?
      reads this
    {
      SwapAmounts(sourceAmount.Known().value, destinationAmount.Known().value, fee.value)
    }

    /** Decides the amount that is not desired, and recommends a fee. */
    method DecideAmounts(x: nat, y: nat) returns (recomFee: PoolResult<nat>)
      requires getFeeFromDestination.Some?
      modifies this`sourceAmount, this`destinationAmount
      ensures match DecideSwap(getFeeFromDestination.value, x, y, old(sourceAmount), old(destinationAmount))
              case Ok(amounts) =>
                recomFee == Ok(amounts.fee)
                && sourceAmount.Known() == Some(amounts.source) &&
                      destinationAmount.Known() == Some(amounts.destination)
              case Err(e) => recomFee == Err(e)
    {
      match (sourceAmount, destinationAmount)
      case (Desired(sa), Desired(ta)) =>
        if sa == 0 || ta == 0 { return Err(ZeroValueInAmountParameter); }
        var output := CalcOutputForExactInput(getFeeFromDestination.value, x, y, sa);
        if output.Err? { return Err(output.error); }
        var input := CalcInputForExactOutput(getFeeFromDestination.value, x, y, ta);
        if input.Err? { return Err(input.error); }
        if output.value.0 != ta || input.value.0 != sa || output.value.1 != input.value.1 {
          return Err(PoolPairRatioAndPairSwapRatioIsDifferent);
        }
        recomFee := Ok(output.value.1);
      case (Desired(sa), Min(taMin)) =>
        if sa == 0 { return Err(ZeroValueInAmountParameter); }
        var output := CalcOutputForExactInput(getFeeFromDestination.value, x, y, sa);
        if output.Err? { return Err(output.error); }
        if output.value.0 < taMin { return Err(CalculatedValueIsOutOfDesiredBounds); }
        destinationAmount := Calculated(output.value.0);
        recomFee := Ok(output.value.1);
      case (Desired(sa), _) =>
        if sa == 0 { return Err(ZeroValueInAmountParameter); }
        recomFee := Err(ImpossibleToDecideAssetPairAmounts);
      case (Max(saMax), Desired(ta)) =>
        if ta == 0 { return Err(ZeroValueInAmountParameter); }
        var input := CalcInputForExactOutput(getFeeFromDestination.value, x, y, ta);
        if input.Err? { return Err(input.error); }
        if input.value.0 > saMax { return Err(CalculatedValueIsOutOfDesiredBounds); }
        sourceAmount := Calculated(input.value.0);
        recomFee := Ok(input.value.1);
      case (_, Desired(ta)) =>
        if ta == 0 { return Err(ZeroValueInAmountParameter); }
        recomFee := Err(ImpossibleToDecideAssetPairAmounts);
      case _ =>
        recomFee := Err(ImpossibleToDecideAssetPairAmounts);
    }

    method PrepareAndValidate(chain: Chain, client: Account) returns (r: PoolResult<()>)
      requires Unprepared()
      modifies this
      ensures receiverAccount == old(receiverAccount)
      ensures match ValidatedSwap(chain.View(), target, client, source, destination, old(sourceAmount),
                                  old(destinationAmount))
              case Ok(amounts) => r == Ok(()) && Prepared(client) && Amounts() == amounts
              case Err(e) => r == Err(e)
    {
      var st := chain.View();
      clientAccount := Some(client);
      if PoolOf(target) !in chain.registered { return Err(TechAccountIdIsNotRegistered); }
      var balanceSs := st.Free(source, client);
      var balanceSt := st.Free(source, PoolOf(target));
      var balanceTt := st.Free(destination, PoolOf(target));
      if balanceSs == 0 { return Err(AccountBalanceIsInvalid); }
      if balanceSt == 0 && balanceTt == 0 { return Err(PoolIsEmpty); }
      if balanceSt == 0 || balanceTt == 0 { return Err(PoolIsInvalid); }
      getFeeFromDestination := Some(FeeFromDestination(source, destination));
      var recomFee := DecideAmounts(balanceSt, balanceTt);
      if recomFee.Err? { return Err(recomFee.error); }
      feeAccount := Some(FeesOf(target));
      fee := Some(recomFee.value);
      var sourceValue, destinationValue := sourceAmount.Known().value, destinationAmount.Known().value;
      if balanceSs < sourceValue { return Err(SourceBalanceIsNotLargeEnough); }
      if balanceTt < destinationValue { return Err(TargetBalanceIsNotLargeEnough); }
      r := PostSwapCheck(balanceSt, balanceTt, sourceValue, destinationValue);
    }

    /** The three transfers; a failure leaves the earlier ones to the enclosing
        transaction. */
    method MoveBalances(chain: Chain, client: Account, amounts: SwapAmounts) returns (r: PoolResult<()>)
      requires Prepared(client) && amounts == Amounts()
      modifies chain
      ensures var done := ReservedSwap(old(chain.View()), target, client, receiverAccount.value, source, destination,
                                       amounts);
              match r
              case Ok(_) => done == Ok(Synced(chain.View(), source, destination, target))
              case Err(e) => done == Err(e)
    {
      var pool := PoolOf(target);
      if getFeeFromDestination.value {
        r := chain.TransferIn(source, client, pool, amounts.source);
        if r.Err? { return; }
        r := chain.TransferOut(destination, pool, feeAccount.value, amounts.fee);
        if r.Err? { return; }
        r := chain.TransferOut(destination, pool, receiverAccount.value, WrapSub(amounts.destination, amounts.fee));
      } else {
        r := chain.TransferIn(source, client, pool, WrapSub(amounts.source, amounts.fee));
        if r.Err? { return; }
        r := chain.TransferIn(source, client, feeAccount.value, amounts.fee);
        if r.Err? { return; }
        r := chain.TransferOut(destination, pool, receiverAccount.value, amounts.destination);
      }
    }

    /** All the transfers, or none. */
    method Reserve(chain: Chain, client: Account) returns (r: PoolResult<()>)
      requires Prepared(client)
      modifies chain
      ensures match ReservedSwap(old(chain.View()), target, client, receiverAccount.value, source, destination,
                                 Amounts())
              case Ok(st) => r == Ok(()) && chain.View() == st
              case Err(e) => r == Err(e) && chain.View() == old(chain.View())
    {
      var before := chain.View();
      var amounts := Amounts();
      r := MoveBalances(chain, client, amounts);
      if r.Err? {
        chain.Restore(before);
        return;
      }
      var st := chain.View();
      chain.UpdateReserves(source, destination,
                           (XykPool.Reserve(st, source, target), XykPool.Reserve(st, destination, target)));
      r := Ok(());
    }
  }

  class DepositLiquidityAction {
    var clientAccount: Option<Account>
    var receiverAccount: Option<Account>
    const target: Asset
    const a: Asset
    const b: Asset
    var amountA: Bounds
    var amountB: Bounds
    var markers: Bounds
    var minLiquidity: Option<nat>

    constructor (target: Asset, a: Asset, b: Asset, amountA: Bounds, amountB: Bounds)
      ensures Unprepared()
      ensures this.target == target && this.a == a && this.b == b && this.amountA == amountA && this.amountB == amountB
    {
      clientAccount, receiverAccount := None, None;
      this.target, this.a, this.b := target, a, b;
      this.amountA, this.amountB, markers, minLiquidity := amountA, amountB, Decide, None;
    }

    predicate Unprepared()
      reads this
    {
      clientAccount.None? && receiverAccount.None? && markers.Decide? && minLiquidity.None?
    }

    predicate Prepared(client: Account)
      reads this
    {
      && clientAccount == receiverAccount == Some(client)
      && amountA.Known().Some? && amountB.Known().Some? && markers.Known().Some?
    }

    function Amounts(): DepositAmounts
      requires amountA.Known().Some? && amountB.Known().Some? && markers.Known().Some?
      reads this
    {
      DepositAmounts(amountA.Known().value, amountB.Known().value, markers.Known().value)
    }

    /** Decides the amounts and the markers; those of a first deposit are given. */
    method DecideAmounts(emptyPool: bool, root: nat, supply: nat, x: nat, y: nat) returns (r: PoolResult<()>)
      requires emptyPool ==> amountA.Known().Some? && amountB.Known().Some?
      modifies this`amountA, this`amountB, this`markers
      ensures emptyPool ==>
              r == Ok(()) && amountA == old(amountA) && amountB == old(amountB) && markers == Calculated(root)
      ensures !emptyPool ==>
                match DecideDeposit(supply, x, y, old(amountA), old(amountB))
                case Ok(amounts) =>
                  r == Ok(()) && amountA == Calculated(amounts.a) && amountB == Calculated(amounts.b)
                  && markers == Calculated(amounts.markers)
                case Err(e) => r == Err(e)
    {
      if emptyPool {
        markers := Calculated(root);
      } else {
        var amounts := DecideDeposit(supply, x, y, amountA, amountB);
        if amounts.Err? { return Err(amounts.error); }
        amountA, amountB, markers := Calculated(amounts.value.a), Calculated(amounts.value.b),
            Calculated(amounts.value.markers);
      }
      r := Ok(());
    }

    method PrepareAndValidate(chain: Chain, client: Account) returns (r: PoolResult<()>)
      requires Unprepared()
      modifies this
      ensures match ValidatedDeposit(chain.View(), target, client, a, b, old(amountA), old(amountB))
              case Ok(amounts) => r == Ok(()) && Prepared(client) && Amounts() == amounts
              case Err(e) => r == Err(e)
    {
      var st := chain.View();
      clientAccount := Some(client);
      receiverAccount := clientAccount;
      if PoolOf(target) !in chain.registered { return Err(TechAccountIdIsNotRegistered); }
      var balanceBs, balanceTs := st.Free(a, client), st.Free(b, client);
      if balanceBs == 0 || balanceTs == 0 { return Err(AccountBalanceIsInvalid); }
      var balanceBp, balanceTp := st.Free(a, PoolOf(target)), st.Free(b, PoolOf(target));
      var emptyPool := balanceBp == 0 && balanceTp == 0;
      if !emptyPool && (balanceBp == 0 || balanceTp == 0) { return Err(PoolIsInvalid); }
      var x, y := balanceBp, balanceTp;
      if emptyPool {
        if amountA.Known().None? || amountB.Known().None? { return Err(InitialLiqudityDepositRatioMustBeDefined); }
        x, y := amountA.Known().value, amountB.Known().value;
      }
      var poolK := PoolRoot(x, y);
      if poolK.Err? { return Err(poolK.error); }
      var decided := DecideAmounts(emptyPool, poolK.value, st.Issued(Marker(target)), balanceBp, balanceTp);
      if decided.Err? { return Err(decided.error); }
      minLiquidity := Some(MIN_LIQUIDITY);
      if minLiquidity.value > poolK.value && markers.value < minLiquidity.value - poolK.value {
        return Err(DestinationAmountOfLiquidityIsNotLargeEnough);
      }
      if balanceBs < amountA.Known().value { return Err(SourceBaseAmountIsNotLargeEnough); }
      if balanceTs < amountB.Known().value { return Err(TargetBaseAmountIsNotLargeEnough); }
      if emptyPool {
        markers := Calculated(WrapSub(markers.value, minLiquidity.value));
      }
      r := Ok(());
    }

    /** Transfers, mints and refreshes the cache; a failure leaves the earlier changes
        to the enclosing transaction. */
    method Reserve(chain: Chain, client: Account) returns (r: PoolResult<()>)
      requires Prepared(client)
      modifies chain
      ensures match ReservedDeposit(old(chain.View()), target, client, a, b, Amounts())
              case Ok(st) => r == Ok(()) && chain.View() == st
              case Err(e) => r == Err(e)
    {
      r := chain.TransferIn(a, client, PoolOf(target), amountA.Known().value);
      if r.Err? { return; }
      r := chain.TransferIn(b, client, PoolOf(target), amountB.Known().value);
      if r.Err? { return; }
      r := chain.MintTo(Marker(target), receiverAccount.value, markers.Known().value);
      if r.Err? { return; }
      var st := chain.View();
      chain.UpdateReserves(a, b, (XykPool.Reserve(st, a, target), XykPool.Reserve(st, b, target)));
    }
  }

  class WithdrawLiquidityAction {
    var clientAccount: Option<Account>
    var receiverAccountA: Option<Account>
    var receiverAccountB: Option<Account>
    const target: Asset
    const a: Asset
    const b: Asset
    const markers: Bounds
    var amountA: Bounds
    var amountB: Bounds

    constructor (target: Asset, a: Asset, b: Asset, markers: Bounds, amountA: Bounds, amountB: Bounds)
      ensures Unprepared()
      ensures this.target == target && this.a == a && this.b == b
      ensures this.markers == markers && this.amountA == amountA && this.amountB == amountB
    {
      clientAccount, receiverAccountA, receiverAccountB := None, None, None;
      this.target, this.a, this.b := target, a, b;
      this.markers, this.amountA, this.amountB := markers, amountA, amountB;
    }

    predicate Unprepared()
      reads this
    {
      clientAccount.None? && receiverAccountA.None? && receiverAccountB.None?
    }

    predicate Prepared(client: Account)
      reads this
    {
      && clientAccount == receiverAccountA == receiverAccountB == Some(client)
      && amountA.Known().Some? && amountB.Known().Some? && markers.Known().Some?
    }

    function Amounts(): WithdrawAmounts
      requires amountA.Known().Some? && amountB.Known().Some? && markers.Known().Some?
      reads this
    {
      WithdrawAmounts(amountA.Known().value, amountB.Known().value, markers.Known().value)
    }

    /** Decides both payments, or checks them if they are given. */
    method DecideAmounts(x: nat, y: nat, supply: nat) returns (r: PoolResult<()>)
      modifies this`amountA, this`amountB
      ensures match DecideWithdraw(supply, x, y, markers, old(amountA), old(amountB))
              case Ok(amounts) =>
                r == Ok(()) && markers == Desired(amounts.markers)
                && amountA.Known() == Some(amounts.a) && amountB.Known() == Some(amounts.b)
              case Err(e) => r == Err(e)
    {
      if !markers.Desired? { return Err(ImpossibleToDecideDepositLiquidityAmounts); }
      var sourceK := markers.value;
      if sourceK == 0 { return Err(ZeroValueInAmountParameter); }
      var recomX := WithdrawShare(x, sourceK, supply);
      if recomX.Err? { return Err(recomX.error); }
      var recomY := WithdrawShare(y, sourceK, supply);
      if recomY.Err? { return Err(recomY.error); }
      if amountA.Desired? {
        if amountA.value != recomX.value { return Err(InvalidWithdrawLiquidityBasicAssetAmount); }
      } else {
        if !amountA.Meets(recomX.value) { return Err(CalculatedValueIsNotMeetsRequiredBoundaries); }
        amountA := Calculated(recomX.value);
      }
      if amountB.Desired? {
        if amountB.value != recomY.value { return Err(InvalidWithdrawLiquidityTargetAssetAmount); }
      } else {
        if !amountB.Meets(recomY.value) { return Err(CalculatedValueIsNotMeetsRequiredBoundaries); }
        amountB := Calculated(recomY.value);
      }
      r := Ok(());
    }

    method PrepareAndValidate(chain: Chain, client: Account) returns (r: PoolResult<()>)
      requires Unprepared()
      modifies this
      ensures match ValidatedWithdraw(chain.View(), target, client, a, b, markers, old(amountA), old(amountB))
              case Ok(amounts) => r == Ok(()) && Prepared(client) && Amounts() == amounts
              case Err(e) => r == Err(e)
    {
      var st := chain.View();
      clientAccount := Some(client);
      receiverAccountA := clientAccount;
      receiverAccountB := clientAccount;
      if PoolOf(target) !in chain.registered { return Err(TechAccountIdIsNotRegistered); }
      var balanceKs := st.Free(Marker(target), client);
      if balanceKs == 0 { return Err(AccountBalanceIsInvalid); }
      var balanceBp, balanceTp := st.Free(a, PoolOf(target)), st.Free(b, PoolOf(target));
      if balanceBp == 0 && balanceTp == 0 { return Err(PoolIsEmpty); }
      if balanceBp == 0 || balanceTp == 0 { return Err(PoolIsInvalid); }
      var totalIss := st.Issued(Marker(target));
      var decided := DecideAmounts(balanceBp, balanceTp, totalIss);
      if decided.Err? { return Err(decided.error); }
      if balanceKs < markers.value { return Err(SourceBalanceOfLiquidityTokensIsNotLargeEnough); }
      r := Ok(());
    }

    /** Pays out, burns and refreshes the cache; a failure leaves the earlier changes to
        the enclosing transaction. */
    method Reserve(chain: Chain, client: Account) returns (r: PoolResult<()>)
      requires Prepared(client)
      modifies chain
      ensures match ReservedWithdraw(old(chain.View()), target, client, a, b, Amounts())
              case Ok(st) => r == Ok(()) && chain.View() == st
              case Err(e) => r == Err(e)
    {
      r := chain.TransferOut(a, PoolOf(target), receiverAccountA.value, amountA.Known().value);
      if r.Err? { return; }
      r := chain.TransferOut(b, PoolOf(target), receiverAccountB.value, amountB.Known().value);
      if r.Err? { return; }
      r := chain.BurnFrom(Marker(target), client, markers.Known().value);
      if r.Err? { return; }
      var st := chain.View();
      chain.UpdateReserves(a, b, (XykPool.Reserve(st, a, target), XykPool.Reserve(st, b, target)));
    }
  }

  // ----- the extrinsics

  method InitializePool(chain: Chain, a: Asset, b: Asset) returns (r: PoolResult<()>)
    modifies chain
    ensures match Initialised(old(chain.View()), a, b)
            case Ok(st) => r == Ok(()) && chain.View() == st
            case Err(e) => r == Err(e) && chain.View() == old(chain.View())
  {
    var target := TargetOf(a, b);
    if target.Err? { return Err(target.error); }
    if PoolOf(target.value) in chain.registered { return Err(PoolIsAlreadyInitialized); }
    chain.registered := chain.registered + {PoolOf(target.value), FeesOf(target.value)};
    r := Ok(());
  }

  method Exchange(chain: Chain, sender: Account, receiver: Account, source: Asset, destination: Asset,
                  request: SwapAmount)
    returns (r: PoolResult<Outcome>)
    modifies chain
    ensures match Exchanged(old(chain.View()), sender, receiver, source, destination, request)
            case Ok((st, outcome)) => r == Ok(outcome) && chain.View() == st
            case Err(e) => r == Err(e) && chain.View() == old(chain.View())
  {
    var target := TargetOf(source, destination);
    if target.Err? { return Err(target.error); }
    var action := new PairSwapAction(receiver, target.value, source, destination, SourceBounds(request),
                                     DestinationBounds(request));
    var validated := action.PrepareAndValidate(chain, sender);
    if validated.Err? { return Err(validated.error); }
    var outcome := SwapOutcome(source, destination, request, action.Amounts());
    var reserved := action.Reserve(chain, sender);
    if reserved.Err? { return Err(reserved.error); }
    r := Ok(outcome);
  }

  method DepositLiquidity(chain: Chain, sender: Account, a: Asset, b: Asset, request: DepositRequest)
    returns (r: PoolResult<()>)
    modifies chain
    ensures match Deposited(old(chain.View()), sender, a, b, request)
            case Ok(st) => r == Ok(()) && chain.View() == st
            case Err(e) => r == Err(e) && chain.View() == old(chain.View())
  {
    var target := TargetOf(a, b);
    if target.Err? { return Err(target.error); }
    if request.aDesired < request.aMin || request.bDesired < request.bMin {
      return Err(InvalidMinimumBoundValueOfBalance);
    }
    var action := new DepositLiquidityAction(target.value, a, b,
                                             RangeFromDesiredToMin(request.aDesired, request.aMin),
                                             RangeFromDesiredToMin(request.bDesired, request.bMin));
    var before := chain.View();
    r := action.PrepareAndValidate(chain, sender);
    if r.Err? { return; }
    r := action.Reserve(chain, sender);
    if r.Err? { chain.Restore(before); }
  }

  method WithdrawLiquidity(chain: Chain, sender: Account, a: Asset, b: Asset, request: WithdrawRequest)
    returns (r: PoolResult<()>)
    modifies chain
    ensures match Withdrawn(old(chain.View()), sender, a, b, request)
            case Ok(st) => r == Ok(()) && chain.View() == st
            case Err(e) => r == Err(e) && chain.View() == old(chain.View())
  {
    var target := TargetOf(a, b);
    if target.Err? { return Err(target.error); }
    var action := new WithdrawLiquidityAction(target.value, a, b, Desired(request.markers), Min(request.aMin),
                                              Min(request.bMin));
    var before := chain.View();
    r := action.PrepareAndValidate(chain, sender);
    if r.Err? { return; }
    r := action.Reserve(chain, sender);
    if r.Err? { chain.Restore(before); }
  }
}
