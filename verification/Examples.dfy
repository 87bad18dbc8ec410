/** Concrete runs: the general theorems have cases, on both sides of their conditions. */
module Examples {
  import opened FixedPoint
  import opened Swaps
  import opened XykMath
  import opened Ledger
  import opened XykPool
  import opened PoolSteps
  import opened PoolRuns
  import BondingCurve

  // ----- first deposits

  /** One user who holds five whole units of the base asset and of two others. */
  function Opening(): State {
    State(map[Base := map[User(0) := 5 * S], Listed(0) := map[User(0) := 5 * S], Listed(1) := map[User(0) := 5 * S]],
          map[Base := 5 * S, Listed(0) := 5 * S, Listed(1) := 5 * S], map[], {})
  }

  lemma OpeningIsGenesis()
    ensures Genesis(Opening())
  {
    var none: Book := map[];
    TotalUpdate(none, User(0), 5 * S);
    assert none[User(0) := 5 * S] == map[User(0) := 5 * S];
  }

  lemma SquareRoot(r: nat, root: nat)
    requires r * r <= MAX && root == r * 1_000_000_000
    ensures Sqrt(r * r) == Val(root) && root * root / S == r * r
  {
    assert root * root == (r * r) * S;
    RootUnique((r * r) * S, root);
  }

  /** The root of equal amounts that are squares is exact. */
  lemma RootOfSquares(r: nat)
    requires r <= 1_000_000_000
    ensures PoolRoot(r * r, r * r) == Ok(r * r)
  {
    SquareLe(r, 1_000_000_000);
    var root := r * 1_000_000_000;
    SquareRoot(r, root);
    MulIs(root, root, r * r);
  }

  lemma TwoSteps(st: State, first: Step, second: Step)
    ensures Run(st, [first, second]) == Apply(Apply(st, first), second)
  {
    assert [first, second][1..] == [second];
    assert [second][1..] == [];
    assert Run(Apply(st, first), [second]) == Run(Apply(Apply(st, first), second), []);
  }

  /** A first deposit of root `n` into an empty, registered pool by a user with the funds. */
  lemma DepositOfRoot(st: State, n: nat)
    requires Solvent(st) && 500 <= n <= S && PoolRoot(n, n) == Ok(n)
    requires PoolOf(Listed(0)) in st.registered
    requires Reserve(st, Base, Listed(0)) == Reserve(st, Listed(0), Listed(0)) == 0
    requires st.Free(Base, User(0)) == st.Free(Listed(0), User(0)) == 5 * S
    ensures var st' := Apply(st, Deposit(User(0), Base, Listed(0), DepositRequest(n, n, 0, 0)));
            && Reserve(st', Base, Listed(0)) == Reserve(st', Listed(0), Listed(0)) == n
            && st'.Issued(Marker(Listed(0))) == (if n < 1000 then U128 + n - 1000 else n - 1000)
            && (Backed(st', Listed(0)) <==> n >= 1000)
  {
    var request := DepositRequest(n, n, 0, 0);
    assert Validated(st, Deposit(User(0), Base, Listed(0), request));
    Completes(st, Deposit(User(0), Base, Listed(0), request));
    FirstDeposit(st, User(0), Base, Listed(0), request);
    FirstDepositBackedExactly(st, User(0), Base, Listed(0), request);
  }

  lemma Squares(r: nat)
    requires 23 <= r <= 1_000_000_000
    ensures 500 <= r * r <= S && (r * r < 1000 <==> r < 32)
  {
    SquareLe(23, r);
    SquareLe(r, 1_000_000_000);
    if r < 32 { SquareLe(r, 31); } else { SquareLe(32, r); }
  }

  /** A first deposit of `r * r` base units of both assets: its root passes the guard from
      23 on, and its markers are backed from 32 on. In between the subtraction of the
      minimal liquidity wraps, so that nearly all 2^128 of them are issued. */
  lemma FirstDeposits(r: nat)
    requires 23 <= r <= 1_000_000_000
    ensures var steps := [Initialise(Base, Listed(0)),
                          Deposit(User(0), Base, Listed(0), DepositRequest(r * r, r * r, 0, 0))];
            var st := Run(Opening(), steps);
            && Reserve(st, Base, Listed(0)) == Reserve(st, Listed(0), Listed(0)) == r * r
            && st.Issued(Marker(Listed(0))) == (if r < 32 then U128 + r * r - 1000 else r * r - 1000)
            && (Backed(st, Listed(0)) <==> r >= 32)
  {
    var initialise := Initialise(Base, Listed(0));
    OpeningIsGenesis();
    GenesisPools(Opening());
    StepKeepsPoolsExactly(Opening(), initialise);
    Squares(r);
    RootOfSquares(r);
    DepositOfRoot(Apply(Opening(), initialise), r * r);
    TwoSteps(Opening(), initialise, Deposit(User(0), Base, Listed(0), DepositRequest(r * r, r * r, 0, 0)));
  }

  // ----- deliveries to the account of another pool

  const FIRST: Asset := Listed(0)
  const SECOND: Asset := Listed(1)

  /** Two pools, one whole unit of either asset in the first and nothing in the second. */
  ghost predicate OnlyFirstInUse(st: State) {
    && Solvent(st) && Whole(st) && CacheAgrees(st)
    && PoolOf(FIRST) in st.registered && PoolOf(SECOND) in st.registered
    && Reserve(st, Base, FIRST) == Reserve(st, FIRST, FIRST) == S
    && Reserve(st, Base, SECOND) == Reserve(st, SECOND, SECOND) == 0
    && st.Free(Base, User(0)) == 4 * S && st.Free(FIRST, User(0)) == 4 * S && st.Free(SECOND, User(0)) == 5 * S
  }

  function Setup(): seq<Step> {
    [Initialise(Base, FIRST), Initialise(Base, SECOND), Deposit(User(0), Base, FIRST, DepositRequest(S, S, 0, 0))]
  }

  lemma ThreeSteps(st: State, first: Step, second: Step, third: Step)
    ensures Run(st, [first, second, third]) == Apply(Apply(Apply(st, first), second), third)
  {
    assert [first, second, third][1..] == [second, third];
    TwoSteps(Apply(st, first), second, third);
  }

  lemma DepositValid(st: State)
    requires PoolOf(FIRST) in st.registered && Reserve(st, Base, FIRST) == Reserve(st, FIRST, FIRST) == 0
    requires st.Free(Base, User(0)) == 5 * S && st.Free(FIRST, User(0)) == 5 * S
    ensures var bounds := RangeFromDesiredToMin(S, 0);
            ValidatedDeposit(st, FIRST, User(0), Base, FIRST, bounds, bounds) == Ok(DepositAmounts(S, S, S - 1000))
  {
    assert 1_000_000_000 * 1_000_000_000 == S;
    RootOfSquares(1_000_000_000);
  }

  lemma DepositMade(st: State, st3: State)
    requires Reserve(st, Base, FIRST) == Reserve(st, FIRST, FIRST) == 0
    requires Reserve(st, Base, SECOND) == Reserve(st, SECOND, SECOND) == 0
    requires st.Free(Base, User(0)) == 5 * S && st.Free(FIRST, User(0)) == 5 * S && st.Free(SECOND, User(0)) == 5 * S
    requires DepositMoved(st, st3, FIRST, User(0), Base, FIRST, DepositAmounts(S, S, S - 1000))
    ensures Reserve(st3, Base, FIRST) == Reserve(st3, FIRST, FIRST) == S
    ensures Reserve(st3, Base, SECOND) == Reserve(st3, SECOND, SECOND) == 0
    ensures st3.Free(Base, User(0)) == 4 * S && st3.Free(FIRST, User(0)) == 4 * S && st3.Free(SECOND, User(0)) == 5 * S
  {
  }

  lemma SameFunds(st: State, st': State)
    requires st'.books == st.books
    ensures forall asset: Asset, who: Account :: st'.Free(asset, who) == st.Free(asset, who)
  {
  }

  lemma Deposits(st: State)
    requires Solvent(st) && Whole(st) && CacheAgrees(st)
    requires PoolOf(FIRST) in st.registered && PoolOf(SECOND) in st.registered
    requires Reserve(st, Base, FIRST) == Reserve(st, FIRST, FIRST) == 0
    requires Reserve(st, Base, SECOND) == Reserve(st, SECOND, SECOND) == 0
    requires st.Free(Base, User(0)) == 5 * S && st.Free(FIRST, User(0)) == 5 * S && st.Free(SECOND, User(0)) == 5 * S
    ensures OnlyFirstInUse(Apply(st, Deposit(User(0), Base, FIRST, DepositRequest(S, S, 0, 0))))
  {
    var bounds, amounts := RangeFromDesiredToMin(S, 0), DepositAmounts(S, S, S - 1000);
    DepositValid(st);
    ValidDeposit(st, FIRST, User(0), Base, FIRST, bounds, bounds);
    DepositKeepsPools(st, FIRST, User(0), Base, FIRST, bounds, bounds);
    var st3 := DepositTransfers(st, FIRST, User(0), Base, FIRST, amounts);
    DepositMade(st, st3);
    SyncAgrees(st3, Base, FIRST, FIRST);
    var st' := Synced(st3, Base, FIRST, FIRST);
    SameFunds(st3, st');
    assert Attempt(st, Deposit(User(0), Base, FIRST, DepositRequest(S, S, 0, 0))) == Ok(st');
  }

  lemma SetupDone()
    ensures OnlyFirstInUse(Run(Opening(), Setup()))
  {
    var first, second := Initialise(Base, FIRST), Initialise(Base, SECOND);
    OpeningIsGenesis();
    GenesisPools(Opening());
    StepKeepsPoolsExactly(Opening(), first);
    StepKeepsPoolsExactly(Apply(Opening(), first), second);
    Deposits(Apply(Apply(Opening(), first), second));
    ThreeSteps(Opening(), first, second, Setup()[2]);
  }

  lemma AtPar()
    ensures CalcOutputForExactInput(true, S, S, S) == Ok((S / 2, 1_500_000_000_000_000))
    ensures PostSwapCheck(S, S, S, S / 2).Ok?
  {
    assert Div(2 * S, S) == Val(2 * S) && Div(S, 2 * S) == Val(S / 2);
    FeeExactly(S / 2);
    assert Div(S, S) == Val(S) && Div(2 * S, S / 2) == Val(4 * S);
    assert Mul(3 * S, 3 * S) == Val(9 * S);
  }

  /** A whole unit swapped against a whole unit pays half of one, before the fee. */
  lemma HalfPaid(st: State, receiver: Account)
    requires OnlyFirstInUse(st)
    ensures var request := SwapAmount(WithDesiredInput, S, S / 2);
            && ValidatedSwap(st, FIRST, User(0), FIRST, Base, SourceBounds(request), DestinationBounds(request)) ==
                 Ok(SwapAmounts(S, S / 2, 1_500_000_000_000_000))
            && Attempt(st, Swap(User(0), receiver, FIRST, Base, request)).Ok?
  {
    AtPar();
    SwapStep(st, User(0), receiver, FIRST, Base, SwapAmount(WithDesiredInput, S, S / 2));
  }

  lemma SecondFilledByHalf(st: State, swap: Step)
    requires OnlyFirstInUse(st)
    requires swap == Swap(User(0), PoolOf(SECOND), FIRST, Base, SwapAmount(WithDesiredInput, S, S / 2))
    ensures Attempt(st, swap).Ok? && Breaks(st, swap) && Stales(st, swap)
    ensures !AllOrNothing(Apply(st, swap), SECOND) && PoolOf(SECOND) in Apply(st, swap).registered
  {
    HalfPaid(st, PoolOf(SECOND));
    SwapStep(st, User(0), PoolOf(SECOND), FIRST, Base, swap.swap);
  }

  lemma FundsLeft(st: State, swap: Step)
    requires OnlyFirstInUse(st)
    requires swap == Swap(User(0), PoolOf(SECOND), FIRST, Base, SwapAmount(WithDesiredInput, S, S / 2))
    ensures Apply(st, swap).Free(Base, User(0)) > 0 && Apply(st, swap).Free(SECOND, User(0)) > 0
  {
    HalfPaid(st, PoolOf(SECOND));
    var sb, db := SourceBounds(swap.swap), DestinationBounds(swap.swap);
    var st3 := SwapCompletes(st, FIRST, User(0), PoolOf(SECOND), FIRST, Base, sb, db);
    SameFunds(st3, Apply(st, swap));
  }

  /** A swap with the first pool that delivers to the account of the second one goes through
      and leaves that pool half empty: the cache still has it empty, and a deposit into it by a user
      with funds is refused. */
  lemma SwapBreaksOtherPool()
    ensures var st := Run(Opening(), Setup());
            var swap := Swap(User(0), PoolOf(SECOND), FIRST, Base, SwapAmount(WithDesiredInput, S, S / 2));
            var st' := Apply(st, swap);
            && Attempt(st, swap).Ok? && Breaks(st, swap) && Stales(st, swap)
            && Whole(st) && CacheAgrees(st) && !Whole(st') && !CacheAgrees(st')
            && Attempt(st', Deposit(User(0), Base, SECOND, DepositRequest(S, S, 0, 0))) == Err(PoolIsInvalid)
  {
    var st := Run(Opening(), Setup());
    var request := SwapAmount(WithDesiredInput, S, S / 2);
    var swap := Swap(User(0), PoolOf(SECOND), FIRST, Base, request);
    SetupDone();
    SecondFilledByHalf(st, swap);
    FundsLeft(st, swap);
    StepKeepsPoolsExactly(st, swap);
    HalfEmptyRefuses(Apply(st, swap), User(0), User(0), Base, SECOND, DepositRequest(S, S, 0, 0), request);
  }

  // ----- a minimum that does not arrive

  lemma LessArrives(st: State)
    requires OnlyFirstInUse(st)
    ensures var request := SwapAmount(WithDesiredInput, S, S / 2);
            var done := Exchanged(st, User(0), User(1), FIRST, Base, request);
            && done.Ok? && done.value.1 == Outcome(498_500_000_000_000_000, 1_500_000_000_000_000)
            && done.value.0.Free(Base, User(1)) - st.Free(Base, User(1)) == 498_500_000_000_000_000
            && !MinimumArrives(st, FIRST, Base, request)
  {
    var request := SwapAmount(WithDesiredInput, S, S / 2);
    HalfPaid(st, User(1));
    var done := Exchanged(st, User(0), User(1), FIRST, Base, request);
    OutcomeReported(st, User(0), User(1), FIRST, Base, request, done.value.0, done.value.1);
  }

  /** A unit swapped by a user who asked for at least half of one: that much leaves the pool,
      and 0.4985 arrive. */
  lemma MinimumMissed()
    ensures var st := Run(Opening(), Setup());
            var request := SwapAmount(WithDesiredInput, S, S / 2);
            var done := Exchanged(st, User(0), User(1), FIRST, Base, request);
            && done.Ok?
            && done.value.0.Free(Base, User(1)) - st.Free(Base, User(1)) < request.limit
            && !MinimumArrives(st, FIRST, Base, request)
  {
    SetupDone();
    LessArrives(Run(Opening(), Setup()));
  }

  // ----- a desired output that does not arrive in full

  lemma FifthAtPar()
    ensures CalcInputForExactOutput(true, S, S, S / 5) == Ok((250_941_028_858_218_318, 601_805_416_248_746))
  {
    var y1, price := 200_601_805_416_248_746, 3_985_000_000_000_000_005;
    UnitKept();
    assert GrossFx(S / 5, KEPT) == Val(y1);
    assert Div(S - y1, y1) == Val(price);
    assert Div(S, price) == Val(250_941_028_858_218_318);
  }

  lemma FifthRatios()
    ensures Div(S, S) == Val(S)
    ensures Div(1_250_941_028_858_218_318, 4 * S / 5) == Val(1_563_676_286_072_772_897)
  {
  }

  lemma FifthDrift()
    ensures Mul(563_676_286_072_772_897, 563_676_286_072_772_897) == Val(317_730_955_480_794_508)
  {
  }

  lemma FifthChecked()
    ensures PostSwapCheck(S, S, 250_941_028_858_218_318, S / 5).Ok?
  {
    FifthRatios();
    FifthDrift();
  }

  lemma LessOfOutputArrives(st: State)
    requires OnlyFirstInUse(st)
    ensures var request := SwapAmount(WithDesiredOutput, S / 5, S);
            var done := Exchanged(st, User(0), User(1), FIRST, Base, request);
            && ValidatedSwap(st, FIRST, User(0), FIRST, Base, SourceBounds(request), DestinationBounds(request)).Ok?
            && done.Ok? && done.value.1 == Outcome(250_941_028_858_218_318, 601_805_416_248_746)
            && done.value.0.Free(Base, User(1)) - st.Free(Base, User(1)) == S / 5 - 601_805_416_248_746
            && !OutputSurvivesFee(true, S / 5)
  {
    var request := SwapAmount(WithDesiredOutput, S / 5, S);
    FifthAtPar();
    FifthChecked();
    SwapStep(st, User(0), User(1), FIRST, Base, request);
    var done := Exchanged(st, User(0), User(1), FIRST, Base, request);
    OutcomeReported(st, User(0), User(1), FIRST, Base, request, done.value.0, done.value.1);
  }

  /** A user asks for exactly a fifth of a unit and is ready to pay a whole one: a fifth leaves
      the pool, and 3/997 of it do not arrive. */
  lemma OutputMissed()
    ensures var st := Run(Opening(), Setup());
            var request := SwapAmount(WithDesiredOutput, S / 5, S);
            var done := Exchanged(st, User(0), User(1), FIRST, Base, request);
            && done.Ok?
            && done.value.0.Free(Base, User(1)) - st.Free(Base, User(1)) < request.amount
            && !OutputSurvivesFee(FeeFromDestination(FIRST, Base), request.amount)
  {
    SetupDone();
    LessOfOutputArrives(Run(Opening(), Setup()));
  }

  // ----- the bonding curve with its default parameters

  /** With nothing issued, a payment of 100.3 million buys exactly one million. */
  lemma PaymentBuys()
    ensures BondingCurve.PriceForCollateralAsset(BondingCurve.DEFAULTS, 0, 100_300_000 * S, BondingCurve.Buy) ==
            Val(1_000_000 * S)
  {
    var curve, radicand, root := BondingCurve.DEFAULTS, 2_565_422_500_000_000 * S, 50_650_000 * S;
    BondingCurve.DefaultsExact();
    assert Mul(49_650_000 * S, curve.initialPrice) == Val(4_930_245_000 * S);
    assert Mul(500_000 * S, 5_130_845_000 * S) == Val(radicand);
    assert BondingCurve.BuyRadicand(curve, 0, 100_300_000 * S) == Val(radicand);
    RootUnique(radicand * S, root);
  }

  /** The other formula asks just that payment, and buying back pays four fifths of it. */
  lemma QuantityCosts()
    ensures BondingCurve.PriceForMainAsset(BondingCurve.DEFAULTS, 0, 1_000_000 * S, BondingCurve.Buy) ==
            Val(100_300_000 * S)
    ensures BondingCurve.PriceForMainAsset(BondingCurve.DEFAULTS, 1_000_000 * S, 1_000_000 * S, BondingCurve.Sell) ==
            Val(80_240_000 * S)
  {
    var curve := BondingCurve.DEFAULTS;
    assert BondingCurve.TwiceStepRate(curve) == Val(1_000_000 * S);
    assert BondingCurve.Worth(curve, 1_000_000 * S) == Val(100_300_000 * S);
    assert BondingCurve.Worth(curve, 0) == Val(0);
  }

  /** Those four fifths are what selling the million is quoted for. */
  lemma PriceSells()
    ensures BondingCurve.PriceForCollateralAsset(BondingCurve.DEFAULTS, 1_000_000 * S, 80_240_000 * S,
                                                 BondingCurve.Sell) == Val(1_000_000 * S)
  {
    var curve, radicand, root := BondingCurve.DEFAULTS, 6_310_713_600_000_000_000_000, 79_440_000_000_000_000_000;
    BondingCurve.DefaultsExact();
    assert Mul(1_000_000 * S, curve.sellCoefficient) == Val(800_000 * S);
    assert Div(800_000 * S, 500_000 * S) == Val(1_600_000_000_000_000_000);
    assert Mul(curve.initialPrice, curve.sellCoefficient) == Val(root);
    assert BondingCurve.SellRadicand(curve, 1_000_000 * S, 80_240_000 * S) == Val(radicand);
    RootUnique(radicand * S, root);
    assert Mul(500_000 * S, root) == Val(39_720_000 * S);
    assert Div(39_720_000 * S, curve.sellCoefficient) == Val(49_650_000 * S);
  }
}
