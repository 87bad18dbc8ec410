/** Whole runs of the pools: from a chain without pools, through any sequence of
    initialisations, deposits, withdrawals, swaps and transfers between users. */
module PoolRuns {
  import opened FixedPoint
  import opened Swaps
  import opened XykMath
  import opened Ledger
  import opened XykPool
  import opened PoolSteps

  datatype Step =
    | Initialise(a: Asset, b: Asset)
    | Deposit(sender: Account, a: Asset, b: Asset, deposit: DepositRequest)
    | Withdraw(sender: Account, a: Asset, b: Asset, withdraw: WithdrawRequest)
    | Swap(sender: Account, receiver: Account, source: Asset, destination: Asset, swap: SwapAmount)
    | Send(asset: Asset, from: Account, to: Account, amount: nat)

  function Attempt(st: State, step: Step): PoolResult<State> {
    match step
    case Initialise(a, b) => Initialised(st, a, b)
    case Deposit(sender, a, b, request) => Deposited(st, sender, a, b, request)
    case Withdraw(sender, a, b, request) => Withdrawn(st, sender, a, b, request)
    case Swap(sender, receiver, source, destination, request) =>
      (match Exchanged(st, sender, receiver, source, destination, request)
       case Ok(done) => Ok(done.0)
       case Err(e) => Err(e))
    case Send(asset, from, to, amount) => Transferred(st, asset, from, to, amount)
  }

  /** A failed step is rolled back. */
  function Apply(st: State, step: Step): State {
    match Attempt(st, step)
    case Ok(st') => st'
    case Err(_) => st
  }

  function Run(st: State, steps: seq<Step>): State
    decreases |steps|
  {
    if steps == [] then st else Run(Apply(st, steps[0]), steps[1..])
  }

  /** No one signs for a pool account, and amounts are 128-bit. Anyone may receive, pool
      accounts included. */
  predicate Admissible(step: Step) {
    match step
    case Initialise(_, _) => true
    case Deposit(sender, _, _, _) => !sender.PoolOf?
    case Withdraw(sender, _, _, _) => !sender.PoolOf?
    case Swap(sender, _, _, _, request) => !sender.PoolOf? && request.amount < U128
    case Send(_, from, _, _) => !from.PoolOf?
  }

  /** A sound ledger without pools. */
  ghost predicate Genesis(st: State) {
    && Sound(st)
    && st.reserves == map[]
    && forall t: Asset ::
         && PoolOf(t) !in st.registered && FeesOf(t) !in st.registered
         && Reserve(st, Base, t) == 0 && Reserve(st, t, t) == 0
         && st.Issued(Marker(t)) == 0
  }

  // ----- what one step does to the pools

  datatype Gift = Gift(target: Asset, asset: Asset, who: Account, amount: nat)

  /** The request of the step names a pair and passes the validation of its action. */
  predicate Validated(st: State, step: Step) {
    match step
    case Deposit(sender, a, b, request) =>
      && TargetOf(a, b).Ok? && request.aMin <= request.aDesired && request.bMin <= request.bDesired
      && ValidatedDeposit(st, TargetOf(a, b).value, sender, a, b,
                          RangeFromDesiredToMin(request.aDesired, request.aMin),
                          RangeFromDesiredToMin(request.bDesired, request.bMin)).Ok?
    case Withdraw(sender, a, b, request) =>
      && TargetOf(a, b).Ok?
      && ValidatedWithdraw(st, TargetOf(a, b).value, sender, a, b,
                           Desired(request.markers), Min(request.aMin), Min(request.bMin)).Ok?
    case Swap(sender, _, source, destination, request) =>
      && TargetOf(source, destination).Ok?
      && ValidatedSwap(st, TargetOf(source, destination).value, sender, source, destination,
                       SourceBounds(request), DestinationBounds(request)).Ok?
    case Initialise(a, b) => TargetOf(a, b).Ok? && PoolOf(TargetOf(a, b).value) !in st.registered
    case Send(asset, from, _, amount) => amount <= st.Free(asset, from)
  }

  /** What a step that succeeds pays to an account other than that of its own pool: the
      delivery of a swap, or a transfer. */
  function GiftOf(st: State, step: Step): Gift {
    match step
    case Swap(sender, receiver, source, destination, request) =>
      if !Validated(st, step) then Gift(Base, Base, User(0), 0)
      else
        var target := TargetOf(source, destination).value;
        var amounts := ValidatedSwap(st, target, sender, source, destination, SourceBounds(request),
                                     DestinationBounds(request)).value;
        var delivered := Delivered(source, destination, amounts);
        Gift(target, destination, receiver, if delivered < 0 then 0 else delivered)
    case Send(asset, _, to, amount) => Gift(Base, asset, to, if Attempt(st, step).Ok? then amount else 0)
    case _ => Gift(Base, Base, User(0), 0)
  }

  /** The step pays to the account of a pool, past the pool, one of its two assets. */
  predicate Stales(st: State, step: Step) {
    var gift := GiftOf(st, step);
    Raises(gift.target, gift.asset, gift.who, gift.amount)
  }

  /** And that pool is empty. */
  predicate Breaks(st: State, step: Step) {
    var gift := GiftOf(st, step);
    FillsHalf(st, gift.target, gift.asset, gift.who, gift.amount)
  }

  /** The pools after a step: solvent in any case, whole exactly if the step does not break
      one, in agreement with the cache exactly if it does not make an entry stale. */
  ghost predicate PoolsFollow(st: State, step: Step, st': State) {
    && Solvent(st')
    && (Whole(st) ==> (Whole(st') <==> !Breaks(st, step)))
    && (CacheAgrees(st) ==> (CacheAgrees(st') <==> !Stales(st, step)))
  }

  lemma GenesisPools(st: State)
    requires Genesis(st)
    ensures Solvent(st) && Whole(st) && CacheAgrees(st)
  {
    forall t: Asset | t != Base
      ensures Agrees(st, t) && AllOrNothing(st, t) && EmptyUnissued(st, t)
    {
      assert Reserve(st, Base, t) == 0;
    }
  }

  lemma InitialiseStep(st: State, a: Asset, b: Asset)
    requires Solvent(st) && Initialised(st, a, b).Ok?
    ensures PoolsKept(st, Initialised(st, a, b).value)
  {
    var st' := Initialised(st, a, b).value;
    forall asset: Asset
      ensures st'.Issued(asset) == Total(st'.Book(asset)) < U128
    {
      assert st'.Book(asset) == st.Book(asset) && st'.Issued(asset) == st.Issued(asset);
    }
    forall t: Asset | t != Base
      ensures EmptyUnissued(st', t) && (AllOrNothing(st, t) ==> AllOrNothing(st', t)) &&
              (Agrees(st, t) ==> Agrees(st', t))
    {
      assert EmptyUnissued(st, t);
      assert Reserve(st', Base, t) == Reserve(st, Base, t) && Reserve(st', t, t) == Reserve(st, t, t);
    }
  }

  lemma SendGain(st: State, st': State, asset: Asset, from: Account, to: Account, amount: nat)
    requires !from.PoolOf? && MovedBy(st, st', asset, from, to, amount)
    ensures OthersGain(st, st', Base, asset, to, amount)
  {
  }

  lemma SendStep(st: State, asset: Asset, from: Account, to: Account, amount: nat)
    requires Solvent(st) && !from.PoolOf? && Transferred(st, asset, from, to, amount).Ok?
    ensures PoolsFollow(st, Send(asset, from, to, amount), Transferred(st, asset, from, to, amount).value)
    ensures OthersGain(st, Transferred(st, asset, from, to, amount).value, Base, asset, to, amount)
    ensures Transferred(st, asset, from, to, amount).value.issuance == st.issuance
  {
    var st' := Transferred(st, asset, from, to, amount).value;
    TransferMoves(st, asset, from, to, amount);
    TransferSound(st, asset, from, to, amount);
    SendGain(st, st', asset, from, to, amount);
    PoolsAfter(st, st', Base, asset, to, amount);
  }

  /** A swap request whose validation succeeds: everything known about its step. */
  lemma SwapStep(st: State, sender: Account, receiver: Account, source: Asset, destination: Asset, request: SwapAmount)
    requires Solvent(st) && Admissible(Swap(sender, receiver, source, destination, request))
    requires Validated(st, Swap(sender, receiver, source, destination, request))
    ensures var step := Swap(sender, receiver, source, destination, request);
            && Attempt(st, step).Ok?
            && Attempt(st, step).value.issuance == st.issuance
            && OthersGain(st, Attempt(st, step).value, TargetOf(source, destination).value, destination, receiver,
                          GiftOf(st, step).amount)
            && PoolsFollow(st, step, Attempt(st, step).value)
  {
    PairFacts(source, destination);
    SwapKeepsPoolsExactly(st, TargetOf(source, destination).value, sender, receiver, source, destination,
                          SourceBounds(request), DestinationBounds(request));
  }

  lemma DepositStep(st: State, sender: Account, a: Asset, b: Asset, request: DepositRequest)
    requires Solvent(st) && !sender.PoolOf? && Attempt(st, Deposit(sender, a, b, request)).Ok?
    ensures PoolsKept(st, Attempt(st, Deposit(sender, a, b, request)).value)
    ensures OthersKept(st, Attempt(st, Deposit(sender, a, b, request)).value, TargetOf(a, b).value)
    ensures forall x: Asset :: !x.Marker? ==>
            Attempt(st, Deposit(sender, a, b, request)).value.Issued(x) == st.Issued(x)
  {
    PairFacts(a, b);
    DepositKeepsPools(st, TargetOf(a, b).value, sender, a, b,
                      RangeFromDesiredToMin(request.aDesired, request.aMin),
                      RangeFromDesiredToMin(request.bDesired, request.bMin));
  }

  lemma WithdrawStep(st: State, sender: Account, a: Asset, b: Asset, request: WithdrawRequest)
    requires Solvent(st) && !sender.PoolOf? && Attempt(st, Withdraw(sender, a, b, request)).Ok?
    ensures PoolsKept(st, Attempt(st, Withdraw(sender, a, b, request)).value)
    ensures OthersKept(st, Attempt(st, Withdraw(sender, a, b, request)).value, TargetOf(a, b).value)
    ensures forall x: Asset :: !x.Marker? ==>
            Attempt(st, Withdraw(sender, a, b, request)).value.Issued(x) == st.Issued(x)
  {
    PairFacts(a, b);
    WithdrawKeepsPools(st, TargetOf(a, b).value, sender, a, b, Desired(request.markers), Min(request.aMin),
                       Min(request.bMin));
  }

  lemma NoGiftOnFailure(st: State, step: Step)
    requires Attempt(st, step).Err? && !Validated(st, step)
    ensures GiftOf(st, step).amount == 0
  {
  }

  lemma Completes(st: State, step: Step)
    requires Solvent(st) && Admissible(step) && Validated(st, step)
    ensures Attempt(st, step).Ok?
  {
    match step
    case Deposit(sender, a, b, request) =>
      PairFacts(a, b);
      DepositKeepsPools(st, TargetOf(a, b).value, sender, a, b,
                        RangeFromDesiredToMin(request.aDesired, request.aMin),
                        RangeFromDesiredToMin(request.bDesired, request.bMin));
    case Withdraw(sender, a, b, request) =>
      PairFacts(a, b);
      WithdrawKeepsPools(st, TargetOf(a, b).value, sender, a, b, Desired(request.markers), Min(request.aMin),
                         Min(request.bMin));
    case Swap(sender, receiver, source, destination, request) =>
      SwapStep(st, sender, receiver, source, destination, request);
    case Send(asset, from, to, amount) =>
      TransferSucceeds(st, asset, from, to, amount);
    case Initialise(_, _) =>
  }

  /** Every admissible step, successful or not, keeps the pools solvent and the total of
      every asset that is not a pool's marker. It keeps them whole exactly if it does not
      break one, and the cache in agreement exactly if it does not make an entry stale. */
  lemma StepKeepsPoolsExactly(st: State, step: Step)
    requires Solvent(st) && Admissible(step)
    ensures PoolsFollow(st, step, Apply(st, step))
    ensures forall x: Asset :: !x.Marker? ==> Apply(st, step).Issued(x) == st.Issued(x)
  {
    if Validated(st, step) { Completes(st, step); }
    if Attempt(st, step).Ok? {
      match step
      case Initialise(a, b) => InitialiseStep(st, a, b);
      case Deposit(sender, a, b, request) => DepositStep(st, sender, a, b, request);
      case Withdraw(sender, a, b, request) => WithdrawStep(st, sender, a, b, request);
      case Swap(sender, receiver, source, destination, request) =>
        SwapStep(st, sender, receiver, source, destination, request);
      case Send(asset, from, to, amount) => SendStep(st, asset, from, to, amount);
    } else {
      NoGiftOnFailure(st, step);
    }
  }

  // ----- whole runs

  predicate AllAdmissible(steps: seq<Step>) {
    forall i :: 0 <= i < |steps| ==> Admissible(steps[i])
  }

  /** In every reachable state the pools are solvent, issuances are the sums of the
      balances, and the totals of the traded assets are what they were. */
  lemma {:induction false} RunKeepsSolvent(st: State, steps: seq<Step>)
    requires Solvent(st) && AllAdmissible(steps)
    ensures Solvent(Run(st, steps))
    ensures forall x: Asset :: !x.Marker? ==> Total(Run(st, steps).Book(x)) == Total(st.Book(x))
    decreases |steps|
  {
    if steps != [] {
      StepKeepsPoolsExactly(st, steps[0]);
      RunKeepsSolvent(Apply(st, steps[0]), steps[1..]);
      forall x: Asset | !x.Marker?
        ensures Total(Run(st, steps).Book(x)) == Total(st.Book(x))
      {
        assert Apply(st, steps[0]).Issued(x) == st.Issued(x);
      }
    }
  }

  /** No step of the run breaks a pool in the state that it meets. */
  ghost predicate NoneBreaks(st: State, steps: seq<Step>)
    decreases |steps|
  {
    steps != [] ==> !Breaks(st, steps[0]) && NoneBreaks(Apply(st, steps[0]), steps[1..])
  }

  /** No step of the run makes a cache entry stale. */
  ghost predicate NoneStales(st: State, steps: seq<Step>)
    decreases |steps|
  {
    steps != [] ==> !Stales(st, steps[0]) && NoneStales(Apply(st, steps[0]), steps[1..])
  }

  /** The pools are whole all along the run. */
  ghost predicate WholeThroughout(st: State, steps: seq<Step>)
    decreases |steps|
  {
    Whole(st) && (steps != [] ==> WholeThroughout(Apply(st, steps[0]), steps[1..]))
  }

  /** The cache agrees with the ledger all along the run. */
  ghost predicate AgreesThroughout(st: State, steps: seq<Step>)
    decreases |steps|
  {
    CacheAgrees(st) && (steps != [] ==> AgreesThroughout(Apply(st, steps[0]), steps[1..]))
  }

  /** Pools are all-or-nothing in every state of a run exactly when no step of it pays to
      the account of an empty pool, past that pool. */
  lemma {:induction false} RunWholeExactly(st: State, steps: seq<Step>)
    requires Solvent(st) && AllAdmissible(steps)
    ensures WholeThroughout(st, steps) <==> Whole(st) && NoneBreaks(st, steps)
    ensures WholeThroughout(st, steps) ==> Whole(Run(st, steps))
    decreases |steps|
  {
    if steps != [] {
      StepKeepsPoolsExactly(st, steps[0]);
      RunWholeExactly(Apply(st, steps[0]), steps[1..]);
    }
  }

  /** The cache agrees with the ledger in every state of a run exactly when no step of it
      pays to the account of a pool, past that pool. */
  lemma {:induction false} RunAgreesExactly(st: State, steps: seq<Step>)
    requires Solvent(st) && AllAdmissible(steps)
    ensures AgreesThroughout(st, steps) <==> CacheAgrees(st) && NoneStales(st, steps)
    ensures AgreesThroughout(st, steps) ==> CacheAgrees(Run(st, steps))
    decreases |steps|
  {
    if steps != [] {
      StepKeepsPoolsExactly(st, steps[0]);
      RunAgreesExactly(Apply(st, steps[0]), steps[1..]);
    }
  }

  /** Only an initialisation registers accounts. */
  lemma StepRegisters(st: State, step: Step)
    requires Solvent(st) && Admissible(step)
    ensures st.registered <= Apply(st, step).registered
    ensures !step.Initialise? ==> Apply(st, step).registered == st.registered
  {
    if Attempt(st, step).Ok? {
      match step
      case Deposit(sender, a, b, request) => DepositStep(st, sender, a, b, request);
      case Withdraw(sender, a, b, request) => WithdrawStep(st, sender, a, b, request);
      case Swap(sender, receiver, source, destination, request) =>
        SwapStep(st, sender, receiver, source, destination, request);
      case Send(asset, from, to, amount) => SendStep(st, asset, from, to, amount);
      case Initialise(_, _) =>
    }
  }

  lemma {:induction false} RunRegisters(st: State, steps: seq<Step>)
    requires Solvent(st) && AllAdmissible(steps)
    ensures st.registered <= Run(st, steps).registered
    decreases |steps|
  {
    if steps != [] {
      StepRegisters(st, steps[0]);
      StepKeepsPoolsExactly(st, steps[0]);
      RunRegisters(Apply(st, steps[0]), steps[1..]);
    }
  }

  /** A pool is initialised at most once: the first attempt registers exactly its two technical
      accounts and changes nothing else, and after any run every further one is refused. */
  lemma InitialisedOnce(st: State, a: Asset, b: Asset, steps: seq<Step>)
    requires Solvent(st) && AllAdmissible(steps)
    requires TargetOf(a, b).Ok? && PoolOf(TargetOf(a, b).value) !in st.registered
    ensures var target, st' := TargetOf(a, b).value, Apply(st, Initialise(a, b));
            && st' == st.(registered := st.registered + {PoolOf(target), FeesOf(target)})
            && Attempt(Run(st', steps), Initialise(a, b)) == Err(PoolIsAlreadyInitialized)
            && Attempt(Run(st', steps), Initialise(b, a)) == Err(PoolIsAlreadyInitialized)
  {
    StepKeepsPoolsExactly(st, Initialise(a, b));
    RunRegisters(Apply(st, Initialise(a, b)), steps);
  }

  lemma WholePair(st: State, a: Asset, b: Asset)
    requires Whole(st) && TargetOf(a, b).Ok?
    ensures Reserve(st, a, TargetOf(a, b).value) == 0 <==> Reserve(st, b, TargetOf(a, b).value) == 0
  {
    PairFacts(a, b);
    assert AllOrNothing(st, TargetOf(a, b).value);
  }

  lemma MarkerError(supply: nat, ra: nat, rb: nat, aDesired: nat, bDesired: nat, aMin: nat, bMin: nat)
    ensures CalcDepositLiquidity(supply, ra, rb, aDesired, bDesired, aMin, bMin) != Err(PoolIsInvalid)
  {
    assert CalculateOptimalDeposit(ra, rb, aDesired, bDesired, aMin, bMin) != Err(PoolIsInvalid);
  }

  lemma DecideDepositError(supply: nat, x: nat, y: nat, ab: Bounds, bb: Bounds)
    ensures DecideDeposit(supply, x, y, ab, bb) != Err(PoolIsInvalid)
  {
    if ab.RangeFromDesiredToMin? && bb.RangeFromDesiredToMin? {
      MarkerError(supply, x, y, ab.desired, bb.desired, ab.min, bb.min);
    }
  }

  lemma DepositError(st: State, target: Asset, sender: Account, a: Asset, b: Asset, ab: Bounds, bb: Bounds)
    requires Reserve(st, a, target) == 0 <==> Reserve(st, b, target) == 0
    ensures ValidatedDeposit(st, target, sender, a, b, ab, bb) != Err(PoolIsInvalid)
  {
    DecideDepositError(st.Issued(Marker(target)), Reserve(st, a, target), Reserve(st, b, target), ab, bb);
  }

  lemma DecideWithdrawError(supply: nat, x: nat, y: nat, mb: Bounds, ab: Bounds, bb: Bounds)
    ensures DecideWithdraw(supply, x, y, mb, ab, bb) != Err(PoolIsInvalid)
  {
  }

  lemma WithdrawError(st: State, target: Asset, sender: Account, a: Asset, b: Asset, mb: Bounds, ab: Bounds, bb: Bounds)
    requires Reserve(st, a, target) == 0 <==> Reserve(st, b, target) == 0
    ensures ValidatedWithdraw(st, target, sender, a, b, mb, ab, bb) != Err(PoolIsInvalid)
  {
    DecideWithdrawError(st.Issued(Marker(target)), Reserve(st, a, target), Reserve(st, b, target), mb, ab, bb);
  }

  lemma OutputError(fromDestination: bool, x: nat, y: nat, xIn: nat)
    ensures CalcOutputForExactInput(fromDestination, x, y, xIn) != Err(PoolIsInvalid)
  {
  }

  lemma InputError(fromDestination: bool, x: nat, y: nat, yOut: nat)
    ensures CalcInputForExactOutput(fromDestination, x, y, yOut) != Err(PoolIsInvalid)
  {
  }

  lemma DecideError(fromDestination: bool, x: nat, y: nat, source: Bounds, destination: Bounds)
    ensures DecideSwap(fromDestination, x, y, source, destination) != Err(PoolIsInvalid)
  {
    if source.Desired? { OutputError(fromDestination, x, y, source.value); }
    if destination.Desired? { InputError(fromDestination, x, y, destination.value); }
  }

  lemma SwapError(st: State, target: Asset, sender: Account, source: Asset, destination: Asset, sb: Bounds, db: Bounds)
    requires Reserve(st, source, target) == 0 <==> Reserve(st, destination, target) == 0
    ensures ValidatedSwap(st, target, sender, source, destination, sb, db) != Err(PoolIsInvalid)
  {
    DecideError(FeeFromDestination(source, destination), Reserve(st, source, target), Reserve(st, destination, target),
                sb, db);
  }

  lemma WholePoolsSuffice(st: State, step: Step)
    requires Solvent(st) && Whole(st) && Admissible(step)
    ensures Attempt(st, step) != Err(PoolIsInvalid)
  {
    if Validated(st, step) {
      Completes(st, step);
    } else {
      match step
      case Initialise(_, _) =>
      case Send(_, _, _, _) =>
      case Deposit(sender, a, b, request) =>
        if TargetOf(a, b).Ok? {
          WholePair(st, a, b);
          DepositError(st, TargetOf(a, b).value, sender, a, b,
                       RangeFromDesiredToMin(request.aDesired, request.aMin),
                       RangeFromDesiredToMin(request.bDesired, request.bMin));
        }
      case Withdraw(sender, a, b, request) =>
        if TargetOf(a, b).Ok? {
          WholePair(st, a, b);
          WithdrawError(st, TargetOf(a, b).value, sender, a, b, Desired(request.markers), Min(request.aMin),
                        Min(request.bMin));
        }
      case Swap(sender, receiver, source, destination, request) =>
        if TargetOf(source, destination).Ok? {
          WholePair(st, source, destination);
          SwapError(st, TargetOf(source, destination).value, sender, source, destination,
                    SourceBounds(request), DestinationBounds(request));
        }
    }
  }

  /** As long as none is broken, no step ever finds a half-empty pool. */
  lemma NeverInvalid(st: State, steps: seq<Step>, step: Step)
    requires Genesis(st) && AllAdmissible(steps) && Admissible(step) && NoneBreaks(st, steps)
    ensures Attempt(Run(st, steps), step) != Err(PoolIsInvalid)
  {
    GenesisPools(st);
    RunKeepsSolvent(st, steps);
    RunWholeExactly(st, steps);
    WholePoolsSuffice(Run(st, steps), step);
  }

  /** A registered pool that is half empty refuses every deposit and every swap by someone
      who has the funds. */
  lemma HalfEmptyRefuses(st: State, sender: Account, receiver: Account, a: Asset, b: Asset, deposit: DepositRequest,
                         swap: SwapAmount)
    requires TargetOf(a, b).Ok? && PoolOf(TargetOf(a, b).value) in st.registered &&
             !AllOrNothing(st, TargetOf(a, b).value)
    requires st.Free(a, sender) > 0 && st.Free(b, sender) > 0
    requires deposit.aMin <= deposit.aDesired && deposit.bMin <= deposit.bDesired
    ensures Attempt(st, Deposit(sender, a, b, deposit)) == Err(PoolIsInvalid)
    ensures Attempt(st, Swap(sender, receiver, a, b, swap)) == Err(PoolIsInvalid)
  {
    PairFacts(a, b);
  }

  /** In every reachable state, a request that passes validation completes: none of the
      transfers, mints and burns behind it fails. */
  lemma ValidationSuffices(st: State, steps: seq<Step>, step: Step)
    requires Genesis(st) && AllAdmissible(steps) && Admissible(step)
    requires Validated(Run(st, steps), step)
    ensures Attempt(Run(st, steps), step).Ok?
  {
    GenesisPools(st);
    RunKeepsSolvent(st, steps);
    Completes(Run(st, steps), step);
  }

  /** The minimal output of the request survives the fee at the present reserves. */
  predicate MinimumArrives(st: State, source: Asset, destination: Asset, request: SwapAmount)
    requires TargetOf(source, destination).Ok?
  {
    var target := TargetOf(source, destination).value;
    MinimumSurvivesFee(FeeFromDestination(source, destination), Reserve(st, source, target),
                       Reserve(st, destination, target), request.amount, request.limit)
  }

  lemma BalancesSynced(st: State, st': State, asset: Asset, who: Account)
    requires st'.books == st.books
    ensures st'.Free(asset, who) == st.Free(asset, who)
  {
  }

  /** The balances of the two users and of the fee account after a swap. */
  lemma UsersBalances(st: State, target: Asset, sender: Account, receiver: Account, source: Asset, destination: Asset,
                      sb: Bounds, db: Bounds, amounts: SwapAmounts, st': State)
    requires Solvent(st) && sender.User? && receiver.User? && IsPair(source, destination, target) && BoundsFit(sb) &&
             BoundsFit(db)
    requires ValidatedSwap(st, target, sender, source, destination, sb, db) == Ok(amounts)
    requires ReservedSwap(st, target, sender, receiver, source, destination, amounts) == Ok(st')
    ensures st'.Free(source, sender) == st.Free(source, sender) - amounts.source
    ensures st'.Free(destination, receiver) == st.Free(destination, receiver) + Delivered(source, destination, amounts)
    ensures var asset := FeeAsset(source, destination);
            st'.Free(asset, FeesOf(target)) == st.Free(asset, FeesOf(target)) + amounts.fee
  {
    var st3 := SwapCompletes(st, target, sender, receiver, source, destination, sb, db);
    SyncAgrees(st3, source, destination, target);
    BalancesSynced(st3, st', source, sender);
    BalancesSynced(st3, st', destination, receiver);
    BalancesSynced(st3, st', FeeAsset(source, destination), FeesOf(target));
  }

  /** What an exchange between users reports is what happened: with a desired input, the
      sender paid just that and the outcome is what arrived; with a desired output, the
      outcome is what the sender paid. The limit holds for the amount before a fee on the
      output is taken; for what arrives, exactly when it survives the fee. */
  lemma OutcomeReported(st: State, sender: Account, receiver: Account, source: Asset, destination: Asset,
                        request: SwapAmount, st': State, outcome: Outcome)
    requires Solvent(st) && sender.User? && receiver.User? && request.amount < U128
    requires Exchanged(st, sender, receiver, source, destination, request) == Ok((st', outcome))
    ensures var paid := st.Free(source, sender) - st'.Free(source, sender);
            var arrived := st'.Free(destination, receiver) - st.Free(destination, receiver);
            var feeOnOutput := if FeeFromDestination(source, destination) then outcome.fee else 0;
            var fees := FeesOf(TargetOf(source, destination).value);
            && (request.variant.WithDesiredInput? ==>
                  && paid == request.amount && arrived == outcome.amount && arrived + feeOnOutput >= request.limit
                  && (arrived >= request.limit <==> MinimumArrives(st, source, destination, request)))
            && (request.variant.WithDesiredOutput? ==>
                  && paid == outcome.amount <= request.limit && arrived + feeOnOutput == request.amount
                  && (arrived == request.amount <==>
                      OutputSurvivesFee(FeeFromDestination(source, destination), request.amount)))
            && st'.Free(FeeAsset(source, destination), fees) ==
                  st.Free(FeeAsset(source, destination), fees) + outcome.fee
  {
    PairFacts(source, destination);
    var target, sb, db := TargetOf(source, destination).value, SourceBounds(request), DestinationBounds(request);
    var amounts := ValidatedSwap(st, target, sender, source, destination, sb, db).value;
    ValidSwap(st, target, sender, source, destination, sb, db);
    SwapRespectsRequest(st, target, sender, source, destination, request);
    UsersBalances(st, target, sender, receiver, source, destination, sb, db, amounts, st');
  }

  /** What was paid is the exact price of the desired output at the present reserves, within
      explicit rounding. */
  predicate Charged(st: State, source: Asset, destination: Asset, request: SwapAmount, paid: nat, fee: nat)
    requires TargetOf(source, destination).Ok?
  {
    var target := TargetOf(source, destination).value;
    ExactOutputCharged(FeeFromDestination(source, destination), Reserve(st, source, target),
                       Reserve(st, destination, target), request.amount, paid, fee)
  }

  lemma RequestCharged(st: State, sender: Account, source: Asset, destination: Asset, request: SwapAmount,
                       amounts: SwapAmounts)
    requires Solvent(st) && request.variant.WithDesiredOutput? && request.amount < U128
    requires TargetOf(source, destination).Ok?
    requires ValidatedSwap(st, TargetOf(source, destination).value, sender, source, destination,
                           SourceBounds(request), DestinationBounds(request)) == Ok(amounts)
    ensures Charged(st, source, destination, request, amounts.source, amounts.fee)
  {
    OutputSwapAmounts(st, TargetOf(source, destination).value, sender, source, destination, request.limit,
                      request.amount, amounts);
  }

  /** For a desired output, the sender paid the exact price of it within explicit rounding. */
  lemma OutcomeCharged(st: State, sender: Account, receiver: Account, source: Asset, destination: Asset,
                       request: SwapAmount, st': State, outcome: Outcome)
    returns (paid: nat)
    requires Solvent(st) && sender.User? && receiver.User? && request.amount < U128
    requires Exchanged(st, sender, receiver, source, destination, request) == Ok((st', outcome))
    requires request.variant.WithDesiredOutput?
    ensures st'.Free(source, sender) == st.Free(source, sender) - paid
    ensures Charged(st, source, destination, request, paid, outcome.fee)
  {
    var target := TargetOf(source, destination).value;
    var amounts := ValidatedSwap(st, target, sender, source, destination, SourceBounds(request),
                                 DestinationBounds(request)).value;
    PairFacts(source, destination);
    paid := amounts.source;
    UsersBalances(st, target, sender, receiver, source, destination, SourceBounds(request),
                  DestinationBounds(request), amounts, st');
    RequestCharged(st, sender, source, destination, request, amounts);
  }
 // ----- what deposits and withdrawals do for their sender

  lemma WithdrawBalances(st: State, target: Asset, sender: Account, a: Asset, b: Asset, mb: Bounds, ab: Bounds,
                         bb: Bounds, amounts: WithdrawAmounts, st': State)
    requires Solvent(st) && !sender.PoolOf? && IsPair(a, b, target)
    requires ValidatedWithdraw(st, target, sender, a, b, mb, ab, bb) == Ok(amounts)
    requires ReservedWithdraw(st, target, sender, a, b, amounts) == Ok(st')
    ensures st'.Free(a, sender) == st.Free(a, sender) + amounts.a
    ensures st'.Free(b, sender) == st.Free(b, sender) + amounts.b
    ensures st'.Free(Marker(target), sender) == st.Free(Marker(target), sender) - amounts.markers
  {
    ValidWithdraw(st, target, sender, a, b, mb, ab, bb);
    var st3 := WithdrawTransfers(st, target, sender, a, b, amounts);
    SyncAgrees(st3, a, b, target);
    BalancesSynced(st3, st', a, sender);
    BalancesSynced(st3, st', b, sender);
    BalancesSynced(st3, st', Marker(target), sender);
  }

  /** A payment reaches its minimum, and is the share of the reserve that the markers have in those
      issued and 1000 more, rounded down by at most `1 + S / (supply + 1000)`. */
  predicate PaidShare(paid: nat, min: nat, reserve: nat, markers: nat, supply: nat) {
    && paid >= min
    && paid * (supply + MIN_LIQUIDITY) <= reserve * markers < (paid + 1) * (supply + MIN_LIQUIDITY) + S
  }

  ghost predicate PaidFor(request: WithdrawRequest, x: nat, y: nat, supply: nat, paid: WithdrawAmounts) {
    && paid.markers == request.markers
    && PaidShare(paid.a, request.aMin, x, request.markers, supply)
    && PaidShare(paid.b, request.bMin, y, request.markers, supply)
  }

  lemma WithdrawDecided(supply: nat, x: nat, y: nat, request: WithdrawRequest, amounts: WithdrawAmounts)
    requires DecideWithdraw(supply, x, y, Desired(request.markers), Min(request.aMin), Min(request.bMin)) == Ok(amounts)
    ensures PaidFor(request, x, y, supply, amounts)
  {
    WithdrawBracket(x, request.markers, supply);
    WithdrawBracket(y, request.markers, supply);
  }

  lemma WithdrawnFor(st: State, target: Asset, sender: Account, a: Asset, b: Asset, mb: Bounds, ab: Bounds, bb: Bounds,
                     amounts: WithdrawAmounts)
    requires ValidatedWithdraw(st, target, sender, a, b, mb, ab, bb) == Ok(amounts)
    ensures DecideWithdraw(st.Issued(Marker(target)), Reserve(st, a, target), Reserve(st, b, target), mb, ab, bb) ==
            Ok(amounts)
  {
  }

  /** What a committed withdrawal does for its sender: it costs exactly the markers offered, and
      pays at least both minima, and the exact share of either reserve but for rounding. */
  lemma WithdrawPays(st: State, sender: Account, a: Asset, b: Asset, request: WithdrawRequest, target: Asset,
                     st': State)
    returns (paid: WithdrawAmounts)
    requires Solvent(st) && !sender.PoolOf? && Attempt(st, Withdraw(sender, a, b, request)) == Ok(st')
    requires TargetOf(a, b) == Ok(target)
    ensures st'.Free(a, sender) == st.Free(a, sender) + paid.a
    ensures st'.Free(b, sender) == st.Free(b, sender) + paid.b
    ensures st'.Free(Marker(target), sender) == st.Free(Marker(target), sender) - paid.markers
    ensures PaidFor(request, Reserve(st, a, target), Reserve(st, b, target), st.Issued(Marker(target)), paid)
  {
    PairFacts(a, b);
    var mb, ab, bb := Desired(request.markers), Min(request.aMin), Min(request.bMin);
    paid := ValidatedWithdraw(st, target, sender, a, b, mb, ab, bb).value;
    WithdrawBalances(st, target, sender, a, b, mb, ab, bb, paid, st');
    WithdrawnFor(st, target, sender, a, b, mb, ab, bb, paid);
    WithdrawDecided(st.Issued(Marker(target)), Reserve(st, a, target), Reserve(st, b, target), request, paid);
  }

  lemma DepositBalances(st: State, target: Asset, sender: Account, a: Asset, b: Asset, ab: Bounds, bb: Bounds,
                        amounts: DepositAmounts, st': State)
    requires Solvent(st) && !sender.PoolOf? && IsPair(a, b, target)
    requires ValidatedDeposit(st, target, sender, a, b, ab, bb) == Ok(amounts)
    requires ReservedDeposit(st, target, sender, a, b, amounts) == Ok(st')
    ensures st'.Free(a, sender) == st.Free(a, sender) - amounts.a
    ensures st'.Free(b, sender) == st.Free(b, sender) - amounts.b
    ensures st'.Free(Marker(target), sender) == st.Free(Marker(target), sender) + amounts.markers
  {
    ValidDeposit(st, target, sender, a, b, ab, bb);
    var st3 := DepositTransfers(st, target, sender, a, b, amounts);
    SyncAgrees(st3, a, b, target);
    BalancesSynced(st3, st', a, sender);
    BalancesSynced(st3, st', b, sender);
    BalancesSynced(st3, st', Marker(target), sender);
  }

  /** Neither side of a deposit mints more than its share, but for the scaled supply. */
  ghost predicate MintsWithin(supply: nat, x: nat, y: nat, amounts: DepositAmounts) {
    && supply <= x * S && amounts.markers * (x * S - supply) <= amounts.a * S * supply
    && supply <= y * S && amounts.markers * (y * S - supply) <= amounts.b * S * supply
  }

  lemma DepositDecided(st: State, target: Asset, sender: Account, a: Asset, b: Asset, ab: Bounds, bb: Bounds,
                       amounts: DepositAmounts)
    requires IsPair(a, b, target) && Reserve(st, Base, target) != 0
    requires ValidatedDeposit(st, target, sender, a, b, ab, bb) == Ok(amounts)
    ensures DecideDeposit(st.Issued(Marker(target)), Reserve(st, a, target), Reserve(st, b, target), ab, bb) ==
            Ok(amounts)
  {
  }

  /** The amounts of a deposit into a pool in use: within their bounds, one as desired and the other
      one matching it, and markers for the smaller of the two shares within rounding. */
  ghost predicate TakenFor(request: DepositRequest, x: nat, y: nat, supply: nat, taken: DepositAmounts) {
    && request.aMin <= taken.a <= request.aDesired && request.bMin <= taken.b <= request.bDesired
    && OneSideDesired((taken.a, taken.b), request.aDesired, request.bDesired, x, y)
    && MintsWithin(supply, x, y, taken)
    && (taken.a * supply < (taken.markers + 1) * x || taken.b * supply < (taken.markers + 1) * y)
  }

  lemma TakenDecided(supply: nat, x: nat, y: nat, request: DepositRequest, amounts: DepositAmounts)
    requires request.aMin <= request.aDesired && request.bMin <= request.bDesired
    requires DecideDeposit(supply, x, y, RangeFromDesiredToMin(request.aDesired, request.aMin),
                           RangeFromDesiredToMin(request.bDesired, request.bMin)) == Ok(amounts)
    ensures TakenFor(request, x, y, supply, amounts)
  {
    LaterDepositAmounts(supply, x, y, request);
  }

  /** What a committed deposit into a pool in use takes from its sender, and gives. */
  lemma DepositTakes(st: State, sender: Account, a: Asset, b: Asset, request: DepositRequest, target: Asset, st': State)
    returns (taken: DepositAmounts)
    requires Solvent(st) && !sender.PoolOf? && Attempt(st, Deposit(sender, a, b, request)) == Ok(st')
    requires TargetOf(a, b) == Ok(target) && Reserve(st, Base, target) != 0
    ensures st'.Free(a, sender) == st.Free(a, sender) - taken.a
    ensures st'.Free(b, sender) == st.Free(b, sender) - taken.b
    ensures st'.Free(Marker(target), sender) == st.Free(Marker(target), sender) + taken.markers
    ensures TakenFor(request, Reserve(st, a, target), Reserve(st, b, target), st.Issued(Marker(target)), taken)
  {
    PairFacts(a, b);
    var ab := RangeFromDesiredToMin(request.aDesired, request.aMin);
    var bb := RangeFromDesiredToMin(request.bDesired, request.bMin);
    taken := ValidatedDeposit(st, target, sender, a, b, ab, bb).value;
    DepositBalances(st, target, sender, a, b, ab, bb, taken, st');
    DepositDecided(st, target, sender, a, b, ab, bb, taken);
    TakenDecided(st.Issued(Marker(target)), Reserve(st, a, target), Reserve(st, b, target), request, taken);
  }

  // ----- the reserves back the markers

  /** The markers and the locked 1000 are worth at most the geometric mean. */
  predicate Backed(st: State, target: Asset) {
    var total := st.Issued(Marker(target)) + MIN_LIQUIDITY;
    total * total <= Reserve(st, Base, target) * Reserve(st, target, target)
  }

  lemma FirstDepositOf(st: State, target: Asset, sender: Account, a: Asset, b: Asset, ab: Bounds, bb: Bounds,
                       amounts: DepositAmounts, st': State)
    requires Solvent(st) && !sender.PoolOf? && IsPair(a, b, target) && Reserve(st, Base, target) == 0
    requires ValidatedDeposit(st, target, sender, a, b, ab, bb) == Ok(amounts)
    requires ReservedDeposit(st, target, sender, a, b, amounts) == Ok(st')
    ensures ab.Known() == Some(amounts.a) && bb.Known() == Some(amounts.b)
    ensures var root := PoolRoot(amounts.a, amounts.b);
            && root.Ok? && 2 * root.value >= MIN_LIQUIDITY
            && st'.Issued(Marker(target)) == WrapSub(root.value, MIN_LIQUIDITY)
            && Reserve(st', a, target) == amounts.a && Reserve(st', b, target) == amounts.b
  {
    ValidFirstDeposit(st, target, sender, a, b, ab, bb);
    DepositKeepsPools(st, target, sender, a, b, ab, bb);
  }

  lemma FirstDeposit(st: State, sender: Account, a: Asset, b: Asset, request: DepositRequest)
    requires Solvent(st) && !sender.PoolOf? && Attempt(st, Deposit(sender, a, b, request)).Ok?
    requires Reserve(st, Base, TargetOf(a, b).value) == 0
    ensures var target, st' := TargetOf(a, b).value, Attempt(st, Deposit(sender, a, b, request)).value;
            var root := PoolRoot(request.aDesired, request.bDesired);
            && root.Ok? && 2 * root.value >= MIN_LIQUIDITY
            && st'.Issued(Marker(target)) == WrapSub(root.value, MIN_LIQUIDITY)
            && Reserve(st', a, target) == request.aDesired && Reserve(st', b, target) == request.bDesired
  {
    PairFacts(a, b);
    var target, st' := TargetOf(a, b).value, Attempt(st, Deposit(sender, a, b, request)).value;
    var ab := RangeFromDesiredToMin(request.aDesired, request.aMin);
    var bb := RangeFromDesiredToMin(request.bDesired, request.bMin);
    FirstDepositOf(st, target, sender, a, b, ab, bb, ValidatedDeposit(st, target, sender, a, b, ab, bb).value, st');
  }

  lemma BackedEitherWay(st: State, a: Asset, b: Asset, target: Asset)
    requires IsPair(a, b, target)
    ensures var total := st.Issued(Marker(target)) + MIN_LIQUIDITY;
            Backed(st, target) <==> total * total <= Reserve(st, a, target) * Reserve(st, b, target)
  {
  }

  lemma RootBacks(x: nat, y: nat, markers: nat)
    requires PoolRoot(x, y).Ok? && 2 * PoolRoot(x, y).value >= MIN_LIQUIDITY
    requires markers == WrapSub(PoolRoot(x, y).value, MIN_LIQUIDITY)
    ensures (markers + MIN_LIQUIDITY) * (markers + MIN_LIQUIDITY) <= x * y <==> PoolRoot(x, y).value >= MIN_LIQUIDITY
  {
    var root := PoolRoot(x, y).value;
    PoolRootBelow(x, y);
    if root < MIN_LIQUIDITY {
      assert x <= MAX && y <= MAX;
      ProductLe(x, MAX, y, MAX);
      SquareLe(MAX + 1, markers + MIN_LIQUIDITY);
    }
  }

  /** A first deposit is backed by the reserves it establishes exactly when the root of
      its amounts reaches the 1000 that are subtracted from it. The guard before the
      subtraction lets roots from 500 on pass. */
  lemma FirstDepositBackedExactly(st: State, sender: Account, a: Asset, b: Asset, request: DepositRequest)
    requires Solvent(st) && !sender.PoolOf? && Attempt(st, Deposit(sender, a, b, request)).Ok?
    requires Reserve(st, Base, TargetOf(a, b).value) == 0
    ensures PoolRoot(request.aDesired, request.bDesired).Ok?
    ensures Backed(Attempt(st, Deposit(sender, a, b, request)).value, TargetOf(a, b).value)
       <==> PoolRoot(request.aDesired, request.bDesired).value >= MIN_LIQUIDITY
  {
    PairFacts(a, b);
    FirstDeposit(st, sender, a, b, request);
    var target, st' := TargetOf(a, b).value, Attempt(st, Deposit(sender, a, b, request)).value;
    RootBacks(request.aDesired, request.bDesired, st'.Issued(Marker(target)));
    BackedEitherWay(st', a, b, target);
  }

  /** The step does not swap in or deposit into the pool of `target`. */
  predicate OnlyWithdraws(step: Step, target: Asset) {
    match step
    case Deposit(_, a, b, _) => TargetOf(a, b) != Ok(target)
    case Swap(_, _, source, destination, _) => TargetOf(source, destination) != Ok(target)
    case _ => true
  }

  /** What is paid to a pool past it only raises its reserves. */
  lemma BackedElsewhere(st: State, st': State, t: Asset, asset: Asset, who: Account, amount: nat, target: Asset)
    requires OthersGain(st, st', t, asset, who, amount) && target != Base && target != t && Backed(st, target)
    ensures Backed(st', target)
  {
    ProductLe(Reserve(st, Base, target), Reserve(st', Base, target), Reserve(st, target, target),
              Reserve(st', target, target));
  }

  /** A withdrawal never lowers, on either side, the reserve per issued marker and the
      locked 1000 that the remaining holders share. */
  lemma WithdrawalFairness(st: State, sender: Account, a: Asset, b: Asset, request: WithdrawRequest, target: Asset,
                           st': State)
    requires Solvent(st) && !sender.PoolOf? && Attempt(st, Withdraw(sender, a, b, request)) == Ok(st')
    requires TargetOf(a, b) == Ok(target)
    ensures FairlyPaid(st, st', target, a, b)
  {
    PairFacts(a, b);
    var mb, ab, bb := Desired(request.markers), Min(request.aMin), Min(request.bMin);
    var amounts := ValidatedWithdraw(st, target, sender, a, b, mb, ab, bb).value;
    WithdrawPaysFairly(st, target, sender, a, b, mb, ab, bb, amounts, st');
  }

  lemma BackedAfter(st: State, st': State, a: Asset, b: Asset, target: Asset)
    requires IsPair(a, b, target) && Backed(st, target)
    requires FairlyPaid(st, st', target, a, b)
    ensures Backed(st', target)
  {
    BackingKept(Reserve(st, Base, target), Reserve(st, target, target), Reserve(st', Base, target),
                Reserve(st', target, target),
                st.Issued(Marker(target)) + MIN_LIQUIDITY, st'.Issued(Marker(target)) + MIN_LIQUIDITY);
  }

  lemma WithdrawKeepsBacking(st: State, sender: Account, a: Asset, b: Asset, request: WithdrawRequest, target: Asset,
                             st': State)
    requires Solvent(st) && !sender.PoolOf? && Attempt(st, Withdraw(sender, a, b, request)) == Ok(st')
    requires TargetOf(a, b) == Ok(target) && Backed(st, target)
    ensures Backed(st', target)
  {
    PairFacts(a, b);
    WithdrawalFairness(st, sender, a, b, request, target, st');
    BackedAfter(st, st', a, b, target);
  }

  lemma StepKeepsBacking(st: State, step: Step, target: Asset)
    requires Solvent(st) && Admissible(step) && OnlyWithdraws(step, target) && target != Base && Backed(st, target)
    ensures Backed(Apply(st, step), target)
  {
    if Validated(st, step) { Completes(st, step); }
    if Attempt(st, step).Ok? {
      var st' := Attempt(st, step).value;
      match step
      case Initialise(a, b) =>
      case Deposit(sender, a, b, request) =>
        DepositStep(st, sender, a, b, request);
        BackedElsewhere(st, st', TargetOf(a, b).value, Base, User(0), 0, target);
      case Withdraw(sender, a, b, request) =>
        if TargetOf(a, b) == Ok(target) {
          WithdrawKeepsBacking(st, sender, a, b, request, target, st');
        } else {
          WithdrawStep(st, sender, a, b, request);
          BackedElsewhere(st, st', TargetOf(a, b).value, Base, User(0), 0, target);
        }
      case Swap(sender, receiver, source, destination, request) =>
        SwapStep(st, sender, receiver, source, destination, request);
        BackedElsewhere(st, st', TargetOf(source, destination).value, destination, receiver, GiftOf(st, step).amount,
                        target);
      case Send(asset, from, to, amount) =>
        SendStep(st, asset, from, to, amount);
        BackedElsewhere(st, st', Base, asset, to, amount, target);
    }
  }

  /** Once backed, a pool stays backed along every run that only withdraws from it. */
  lemma {:induction false} RunKeepsBacking(st: State, steps: seq<Step>, target: Asset)
    requires Solvent(st) && target != Base && Backed(st, target)
    requires AllAdmissible(steps) && forall i :: 0 <= i < |steps| ==> OnlyWithdraws(steps[i], target)
    ensures Backed(Run(st, steps), target)
    decreases |steps|
  {
    if steps != [] {
      StepKeepsBacking(st, steps[0], target);
      StepKeepsPoolsExactly(st, steps[0]);
      RunKeepsBacking(Apply(st, steps[0]), steps[1..], target);
    }
  }

  // ----- how far deposits and swaps can lower the backing

  /** The markers and the locked 1000. */
  function Claims(st: State, target: Asset): nat {
    st.Issued(Marker(target)) + MIN_LIQUIDITY
  }

  lemma DilutionSide(claims: nat, supply: nat, markers: nat, reserve: nat, amount: nat)
    requires supply <= claims && supply <= reserve * S && markers * (reserve * S - supply) <= amount * S * supply
    ensures (claims + markers) * (reserve * S - supply) <= claims * ((reserve + amount) * S - supply)
  {
    TimesSum(claims, markers, reserve * S - supply);
    MulMono(supply, claims, amount * S);
    assert (reserve + amount) * S - supply == (reserve * S - supply) + amount * S;
    TimesSum(reserve * S - supply, amount * S, claims);
  }

  lemma DilutionProduct(claims: nat, claims': nat, left: nat, right: nat, left': nat, right': nat)
    requires claims' * left <= claims * left' && claims' * right <= claims * right'
    ensures (claims' * claims') * (left * right) <= (claims * claims) * (left' * right')
  {
    ProductLe(claims' * left, claims * left', claims' * right, claims * right');
    Regroup(claims', left, claims', right);
    Regroup(claims, left', claims, right');
  }

  /** The claims after a deposit, squared and with either reserve before it reduced by the
      supply in scaled units, against the claims before it and the reserves after it. */
  ghost predicate DilutedAtMost(claims: nat, claims': nat, supply: nat, x: nat, y: nat, x': nat, y': nat) {
    && supply <= x * S && supply <= y * S
    && (claims' * claims') * ((x * S - supply) * (y * S - supply)) <=
         (claims * claims) * ((x' * S - supply) * (y' * S - supply))
  }

  lemma DepositDiluted(claims: nat, supply: nat, markers: nat, x: nat, y: nat, a: nat, b: nat)
    requires supply <= claims && supply <= x * S && supply <= y * S
    requires markers * (x * S - supply) <= a * S * supply && markers * (y * S - supply) <= b * S * supply
    ensures DilutedAtMost(claims, claims + markers, supply, x, y, x + a, y + b)
  {
    DilutionSide(claims, supply, markers, x, a);
    DilutionSide(claims, supply, markers, y, b);
    MulMono(x, x + a, S);
    MulMono(y, y + b, S);
    DilutionProduct(claims, claims + markers, x * S - supply, y * S - supply, (x + a) * S - supply,
                    (y + b) * S - supply);
  }

  ghost predicate NearlyBackedAfterDeposit(claims: nat, supply: nat, x: nat, y: nat, x': nat, y': nat) {
    && supply <= x * S && supply <= y * S
    && (claims * claims) * ((x * S - supply) * (y * S - supply)) <= (x * y) * ((x' * S) * (y' * S))
  }

  lemma BackedFactor(claims: nat, product: nat, left: nat, left': nat, right: nat, right': nat)
    requires claims <= product && left <= left' && right <= right'
    ensures claims * (left * right) <= product * (left' * right')
  {
    ProductLe(left, left', right, right');
    ProductLe(claims, product, left * right, left' * right');
  }

  lemma DilutedBacking(claims: nat, claims': nat, supply: nat, x: nat, y: nat, x': nat, y': nat)
    requires claims * claims <= x * y && x <= x' && y <= y' && DilutedAtMost(claims, claims', supply, x, y, x', y')
    ensures NearlyBackedAfterDeposit(claims', supply, x, y, x', y')
  {
    MulMono(x, x', S);
    MulMono(y, y', S);
    BackedFactor(claims * claims, x * y, x' * S - supply, x' * S, y' * S - supply, y' * S);
  }

  lemma LaterDepositMints(supply: nat, x: nat, y: nat, request: DepositRequest, amounts: DepositAmounts)
    requires request.aMin <= request.aDesired && request.bMin <= request.bDesired
    requires DecideDeposit(supply, x, y, RangeFromDesiredToMin(request.aDesired, request.aMin),
                           RangeFromDesiredToMin(request.bDesired, request.bMin)) == Ok(amounts)
    ensures MintsWithin(supply, x, y, amounts)
  {
    LaterDepositAmounts(supply, x, y, request);
  }

  /** The reserves and the claims after a deposit. */
  ghost predicate DepositsInto(st: State, st': State, a: Asset, b: Asset, target: Asset, amounts: DepositAmounts) {
    && Claims(st', target) == Claims(st, target) + amounts.markers
    && Reserve(st', a, target) == Reserve(st, a, target) + amounts.a
    && Reserve(st', b, target) == Reserve(st, b, target) + amounts.b
  }

  lemma DepositDone(st: State, target: Asset, sender: Account, a: Asset, b: Asset, ab: Bounds, bb: Bounds,
                    amounts: DepositAmounts, st': State)
    requires Solvent(st) && !sender.PoolOf? && IsPair(a, b, target)
    requires ValidatedDeposit(st, target, sender, a, b, ab, bb) == Ok(amounts)
    requires ReservedDeposit(st, target, sender, a, b, amounts) == Ok(st')
    ensures DepositsInto(st, st', a, b, target, amounts)
  {
    DepositKeepsPools(st, target, sender, a, b, ab, bb);
  }

  lemma LaterDepositDone(st: State, sender: Account, a: Asset, b: Asset, request: DepositRequest, target: Asset,
                         st': State)
    returns (amounts: DepositAmounts)
    requires Solvent(st) && !sender.PoolOf? && Attempt(st, Deposit(sender, a, b, request)) == Ok(st')
    requires TargetOf(a, b) == Ok(target) && Reserve(st, Base, target) != 0
    ensures DepositsInto(st, st', a, b, target, amounts)
    ensures request.aMin <= request.aDesired && request.bMin <= request.bDesired
    ensures DecideDeposit(st.Issued(Marker(target)), Reserve(st, a, target), Reserve(st, b, target),
                          RangeFromDesiredToMin(request.aDesired, request.aMin),
                          RangeFromDesiredToMin(request.bDesired, request.bMin)) == Ok(amounts)
  {
    PairFacts(a, b);
    var ab := RangeFromDesiredToMin(request.aDesired, request.aMin);
    var bb := RangeFromDesiredToMin(request.bDesired, request.bMin);
    amounts := ValidatedDeposit(st, target, sender, a, b, ab, bb).value;
    DepositDone(st, target, sender, a, b, ab, bb, amounts, st');
    DepositDecided(st, target, sender, a, b, ab, bb, amounts);
  }

  /** The claims after a deposit into a pool in use, against those before it and the reserves. */
  ghost predicate DilutedByRounding(st: State, st': State, a: Asset, b: Asset, target: Asset) {
    DilutedAtMost(Claims(st, target), Claims(st', target), st.Issued(Marker(target)), Reserve(st, a, target),
                  Reserve(st, b, target), Reserve(st', a, target), Reserve(st', b, target))
  }

  lemma DilutesByRounding(st: State, st': State, a: Asset, b: Asset, target: Asset, amounts: DepositAmounts)
    requires DepositsInto(st, st', a, b, target, amounts)
    requires MintsWithin(st.Issued(Marker(target)), Reserve(st, a, target), Reserve(st, b, target), amounts)
    ensures DilutedByRounding(st, st', a, b, target)
  {
    DepositDiluted(Claims(st, target), st.Issued(Marker(target)), amounts.markers,
                   Reserve(st, a, target), Reserve(st, b, target), amounts.a, amounts.b);
  }

  /** A deposit into a pool in use dilutes the claims by rounding only: their square, against
      the product of the reserves, grows at most by the factor by which either scaled reserve
      exceeds itself less the supply. */
  lemma LaterDepositDilutes(st: State, sender: Account, a: Asset, b: Asset, request: DepositRequest, target: Asset,
                            st': State)
    requires Solvent(st) && !sender.PoolOf? && Attempt(st, Deposit(sender, a, b, request)) == Ok(st')
    requires TargetOf(a, b) == Ok(target) && Reserve(st, Base, target) != 0
    ensures DilutedByRounding(st, st', a, b, target)
    ensures Reserve(st, a, target) <= Reserve(st', a, target) && Reserve(st, b, target) <= Reserve(st', b, target)
  {
    var amounts := LaterDepositDone(st, sender, a, b, request, target, st');
    LaterDepositMints(st.Issued(Marker(target)), Reserve(st, a, target), Reserve(st, b, target), request, amounts);
    DilutesByRounding(st, st', a, b, target, amounts);
  }

  /** A diluted pool that was backed is backed by the product of the reserves after the deposit,
      but for that factor. */
  lemma DilutedNearlyBacked(st: State, st': State, a: Asset, b: Asset, target: Asset)
    requires IsPair(a, b, target) && Backed(st, target) && DilutedByRounding(st, st', a, b, target)
    requires Reserve(st, a, target) <= Reserve(st', a, target) && Reserve(st, b, target) <= Reserve(st', b, target)
    ensures NearlyBackedAfterDeposit(Claims(st', target), st.Issued(Marker(target)), Reserve(st, a, target),
                                     Reserve(st, b, target), Reserve(st', a, target), Reserve(st', b, target))
  {
    BackedEitherWay(st, a, b, target);
    DilutedBacking(Claims(st, target), Claims(st', target), st.Issued(Marker(target)), Reserve(st, a, target),
                   Reserve(st, b, target), Reserve(st', a, target), Reserve(st', b, target));
  }

  /** What the product lacks to back the claims after a swap: for an exact input at most
      `(y1 + 1) * y / S`, where `y1` leaves the reserve `y`; for an exact output less than one
      unit of either reserve and, with the fee on the input, the input. */
  ghost predicate NearlyBackedAfterSwap(claims: nat, y: nat, x': int, y': int, amounts: SwapAmounts, variant: Variant,
                                        feeFromDestination: bool)
  {
    && (variant.WithDesiredInput? ==> (claims * claims - x' * y') * S <= (amounts.destination + 1) * y)
    && (variant.WithDesiredOutput? ==>
          claims * claims < (x' + 1) * y' + (if feeFromDestination then 0 else amounts.source + 1))
  }

  lemma InputSwapBacking(claims: nat, x: nat, y: nat, x': nat, y': nat, left: nat, y1: nat)
    requires claims * claims <= x * y && (x * y - x' * left) * S <= (y1 + 1) * y && left <= y'
    ensures (claims * claims - x' * y') * S <= (y1 + 1) * y
  {
    MulMono(left, y', x');
    MulMono(claims * claims - x' * y', x * y - x' * left, S);
  }

  lemma OutputSwapBacking(claims: nat, x: nat, y: nat, x': nat, y': nat, left: nat, slack: nat)
    requires claims * claims <= x * y && x * y < (x' + 1) * left + slack && left <= y'
    ensures claims * claims < (x' + 1) * y' + slack
  {
    MulMono(left, y', x' + 1);
  }

  lemma NearlyBacked(claims: nat, x: nat, y: nat, x': nat, y': nat, amounts: SwapAmounts, request: SwapAmount,
                     fromDestination: bool)
    requires DecideSwap(fromDestination, x, y, SourceBounds(request), DestinationBounds(request)) == Ok(amounts)
    requires 0 < x && y < U128 && request.amount < U128 && amounts.destination <= y && claims * claims <= x * y
    requires x' == x + amounts.source - (if fromDestination then 0 else amounts.fee) && y' >= y - amounts.destination
    ensures NearlyBackedAfterSwap(claims, y, x', y', amounts, request.variant, fromDestination)
  {
    var left := y - amounts.destination;
    if request.variant.WithDesiredInput? {
      ProductLoss(fromDestination, x, y, amounts.source, x', left);
      InputSwapBacking(claims, x, y, x', y', left, amounts.destination);
    } else {
      ExactOutputProduct(fromDestination, x, y, amounts.destination, x', left);
      OutputSwapBacking(claims, x, y, x', y', left, if fromDestination then 0 else amounts.source + 1);
    }
  }

  /** The reserves and the claims after a swap, whoever receives. */
  ghost predicate SwapsThrough(st: State, st': State, source: Asset, destination: Asset, target: Asset,
                               amounts: SwapAmounts) {
    && Claims(st', target) == Claims(st, target)
    && 0 < Reserve(st, source, target) && amounts.destination <= Reserve(st, destination, target) < U128
    && Reserve(st', source, target) == Reserve(st, source, target) + Added(source, destination, amounts)
    && Reserve(st', destination, target) >= Reserve(st, destination, target) - amounts.destination
  }

  lemma SwapDone(st: State, sender: Account, receiver: Account, source: Asset, destination: Asset, sb: Bounds,
                 db: Bounds,
                 target: Asset, amounts: SwapAmounts, st': State)
    requires Solvent(st) && !sender.PoolOf? && IsPair(source, destination, target) && BoundsFit(sb) && BoundsFit(db)
    requires ValidatedSwap(st, target, sender, source, destination, sb, db) == Ok(amounts)
    requires ReservedSwap(st, target, sender, receiver, source, destination, amounts) == Ok(st')
    ensures SwapsThrough(st, st', source, destination, target, amounts)
  {
    ValidSwap(st, target, sender, source, destination, sb, db);
    SwapKeepsPoolsExactly(st, target, sender, receiver, source, destination, sb, db);
    SwapReservesAtLeast(st, target, sender, receiver, source, destination, sb, db);
    HolderBelowIssuance(st, destination, PoolOf(target));
  }

  lemma SwapDecided(st: State, target: Asset, sender: Account, source: Asset, destination: Asset, sb: Bounds,
                    db: Bounds,
                    amounts: SwapAmounts)
    requires ValidatedSwap(st, target, sender, source, destination, sb, db) == Ok(amounts)
    ensures DecideSwap(FeeFromDestination(source, destination), Reserve(st, source, target),
                       Reserve(st, destination, target),
                       sb, db) == Ok(amounts)
  {
  }

  /** The claims on the pool after a swap, against the product of its reserves. */
  ghost predicate BackedButForSwap(st: State, st': State, source: Asset, destination: Asset, target: Asset,
                                   amounts: SwapAmounts, variant: Variant)
  {
    NearlyBackedAfterSwap(Claims(st', target), Reserve(st, destination, target), Reserve(st', source, target),
                          Reserve(st', destination, target), amounts, variant, FeeFromDestination(source, destination))
  }

  lemma SwapsNearlyBacked(st: State, st': State, source: Asset, destination: Asset, target: Asset, amounts: SwapAmounts,
                          request: SwapAmount)
    requires IsPair(source, destination, target) && Backed(st, target) && request.amount < U128
    requires SwapsThrough(st, st', source, destination, target, amounts)
    requires DecideSwap(FeeFromDestination(source, destination), Reserve(st, source, target),
                        Reserve(st, destination, target), SourceBounds(request), DestinationBounds(request)) ==
                            Ok(amounts)
    ensures BackedButForSwap(st, st', source, destination, target, amounts, request.variant)
  {
    BackedEitherWay(st, source, destination, target);
    NearlyBacked(Claims(st, target), Reserve(st, source, target), Reserve(st, destination, target),
                 Reserve(st', source, target), Reserve(st', destination, target), amounts, request,
                 FeeFromDestination(source, destination));
  }

  /** A swap with a backed pool leaves it backed but for that. */
  lemma SwapNearlyBacked(st: State, sender: Account, receiver: Account, source: Asset, destination: Asset,
                         request: SwapAmount, target: Asset, amounts: SwapAmounts, st': State)
    requires Solvent(st) && !sender.PoolOf? && request.amount < U128
    requires IsPair(source, destination, target) && Backed(st, target)
    requires ValidatedSwap(st, target, sender, source, destination, SourceBounds(request),
                           DestinationBounds(request)) == Ok(amounts)
    requires ReservedSwap(st, target, sender, receiver, source, destination, amounts) == Ok(st')
    ensures Claims(st', target) == Claims(st, target)
    ensures BackedButForSwap(st, st', source, destination, target, amounts, request.variant)
  {
    var sb, db := SourceBounds(request), DestinationBounds(request);
    SwapDone(st, sender, receiver, source, destination, sb, db, target, amounts, st');
    SwapDecided(st, target, sender, source, destination, sb, db, amounts);
    SwapsNearlyBacked(st, st', source, destination, target, amounts, request);
  }
}
