/** What each pool operation keeps: the invariant of all pools, step by step. */
module PoolSteps {
  import opened FixedPoint
  import opened Swaps
  import opened XykMath
  import opened Ledger
  import opened XykPool

  // ----- the invariant

  /** The cache entry of a pool equals the two balances of its account. */
  predicate Agrees(st: State, target: Asset) {
    st.Cached(Base, target) == (Reserve(st, Base, target), Reserve(st, target, target))
  }

  /** Both reserves are zero, or both are positive. */
  predicate AllOrNothing(st: State, target: Asset) {
    Reserve(st, Base, target) == 0 <==> Reserve(st, target, target) == 0
  }

  /** No marker of the pool is issued while both its reserves are zero. */
  predicate EmptyUnissued(st: State, target: Asset) {
    Reserve(st, Base, target) == 0 && Reserve(st, target, target) == 0 ==> st.Issued(Marker(target)) == 0
  }

  predicate InUse(st: State, target: Asset) {
    Reserve(st, Base, target) > 0 && Reserve(st, target, target) > 0
  }

  /** What every step keeps, whoever receives what it pays out. */
  ghost predicate Solvent(st: State) {
    && Sound(st)
    && (forall t: Asset :: t != Base ==> EmptyUnissued(st, t))
    && (forall t: Asset :: PoolOf(t) in st.registered <==> FeesOf(t) in st.registered)
  }

  /** No pool is half empty. */
  ghost predicate Whole(st: State) {
    forall t: Asset :: t != Base ==> AllOrNothing(st, t)
  }

  /** The whole cache agrees with the ledger. */
  ghost predicate CacheAgrees(st: State) {
    forall t: Asset :: t != Base ==> Agrees(st, t)
  }

  /** Of the pools of other targets, none loses anything; one of them may be given an
      amount of one of its two assets, past its cache entry. */
  ghost predicate OthersGain(st: State, st': State, target: Asset, asset: Asset, who: Account, amount: nat) {
    && st'.registered == st.registered
    && forall t: Asset :: t != Base && t != target ==>
         && Reserve(st', Base, t) == Reserve(st, Base, t) + (if asset == Base && who == PoolOf(t) then amount else 0)
         && Reserve(st', t, t) == Reserve(st, t, t) + (if asset == t && who == PoolOf(t) then amount else 0)
         && st'.Cached(Base, t) == st.Cached(Base, t)
         && st'.Issued(Marker(t)) == st.Issued(Marker(t))
  }

  /** Nothing about the pools of other targets changed. */
  ghost predicate OthersKept(st: State, st': State, target: Asset) {
    OthersGain(st, st', target, Base, User(0), 0)
  }

  /** The account is that of the pool of another target, and the amount adds to one of its
      reserves. */
  predicate Raises(target: Asset, asset: Asset, who: Account, amount: nat) {
    && amount > 0 && who.PoolOf? && who.target != Base && who.target != target
    && (asset == Base || asset == who.target)
  }

  /** The amount adds to one reserve of an empty pool. */
  predicate FillsHalf(st: State, target: Asset, asset: Asset, who: Account, amount: nat) {
    Raises(target, asset, who, amount) && Reserve(st, Base, who.target) == 0 && Reserve(st, who.target, who.target) == 0
  }

  /** The pools stay solvent, whole if they were, and in agreement with the cache if they
      were. */
  ghost predicate PoolsKept(st: State, st': State) {
    Solvent(st') && (Whole(st) ==> Whole(st')) && (CacheAgrees(st) ==> CacheAgrees(st'))
  }

  /** One pool after such an operation. */
  lemma PoolAfter(st: State, st': State, target: Asset, asset: Asset, who: Account, amount: nat, t: Asset)
    requires OthersGain(st, st', target, asset, who, amount) && t != Base && EmptyUnissued(st, t)
    requires target != Base ==> Agrees(st', target) && InUse(st', target)
    ensures EmptyUnissued(st', t)
    ensures AllOrNothing(st, t) && !FillsHalf(st, target, asset, who, amount) ==> AllOrNothing(st', t)
    ensures Agrees(st, t) && !Raises(target, asset, who, amount) ==> Agrees(st', t)
  {
  }

  /** The pool that is paid past its own operations. */
  lemma RaisedPool(st: State, st': State, target: Asset, asset: Asset, who: Account, amount: nat)
    requires OthersGain(st, st', target, asset, who, amount) && Raises(target, asset, who, amount)
    ensures FillsHalf(st, target, asset, who, amount) ==> !AllOrNothing(st', who.target)
    ensures Agrees(st, who.target) ==> !Agrees(st', who.target)
  {
  }

  /** All pools after an operation on one of them that leaves it in use and its cache entry
      refreshed (or on none of them, with `Base` for the target): they stay solvent; they
      stay whole exactly when the operation does not fill one side of another, empty pool;
      and the cache stays in agreement exactly when it does not raise a reserve of another
      pool. */
  lemma PoolsAfter(st: State, st': State, target: Asset, asset: Asset, who: Account, amount: nat)
    requires Solvent(st) && Sound(st') && OthersGain(st, st', target, asset, who, amount)
    requires target != Base ==> Agrees(st', target) && InUse(st', target)
    ensures Solvent(st')
    ensures Whole(st) ==> (Whole(st') <==> !FillsHalf(st, target, asset, who, amount))
    ensures CacheAgrees(st) ==> (CacheAgrees(st') <==> !Raises(target, asset, who, amount))
  {
    forall t: Asset | t != Base
      ensures EmptyUnissued(st', t)
      ensures AllOrNothing(st, t) && !FillsHalf(st, target, asset, who, amount) ==> AllOrNothing(st', t)
      ensures Agrees(st, t) && !Raises(target, asset, who, amount) ==> Agrees(st', t)
    {
      assert EmptyUnissued(st, t);
      PoolAfter(st, st', target, asset, who, amount, t);
    }
    if Raises(target, asset, who, amount) {
      if CacheAgrees(st) { assert Agrees(st, who.target); }
      RaisedPool(st, st', target, asset, who, amount);
    }
  }

  /** Two assets are a pair exactly when just one of them is the base asset. */
  lemma PairExactly(a: Asset, b: Asset)
    ensures TargetOf(a, b).Ok? <==> (a == Base) != (b == Base)
    ensures a == b ==> TargetOf(a, b) == Err(AssetsMustNotBeSame)
    ensures a != b && a != Base && b != Base ==> TargetOf(a, b) == Err(BaseAssetIsNotMatchedWithAnyAssetArguments)
  {
  }

  lemma PairFacts(a: Asset, b: Asset)
    requires TargetOf(a, b).Ok?
    ensures IsPair(a, b, TargetOf(a, b).value)
  {
  }

  /** Whichever way round the assets were passed, the refreshed cache entry agrees;
      nothing but the entry of the pair changes. */
  lemma SyncAgrees(st: State, a: Asset, b: Asset, target: Asset)
    requires IsPair(a, b, target)
    ensures var st' := Synced(st, a, b, target);
            && Agrees(st', target)
            && st'.books == st.books && st'.issuance == st.issuance && st'.registered == st.registered
            && forall t: Asset :: t != Base && t != target ==> st'.Cached(Base, t) == st.Cached(Base, t)
  {
  }

  lemma SyncSound(st: State, a: Asset, b: Asset, target: Asset)
    requires IsPair(a, b, target) && Sound(st)
    ensures Sound(Synced(st, a, b, target))
  {
    var st' := Synced(st, a, b, target);
    forall asset: Asset
      ensures st'.Issued(asset) == Total(st'.Book(asset)) < U128
    {
      assert st'.Book(asset) == st.Book(asset) && st'.Issued(asset) == st.Issued(asset);
    }
  }

  // ----- swaps

  /** What a swap adds to the pool's source reserve. */
  function Added(source: Asset, destination: Asset, amounts: SwapAmounts): int {
    if FeeFromDestination(source, destination) then amounts.source else amounts.source - amounts.fee
  }

  /** What the receiver gets. */
  function Delivered(source: Asset, destination: Asset, amounts: SwapAmounts): int {
    if FeeFromDestination(source, destination) then amounts.destination - amounts.fee else amounts.destination
  }

  /** The fee fits into the amount it is taken from. */
  predicate FeeCovered(source: Asset, destination: Asset, amounts: SwapAmounts) {
    amounts.fee <= (if FeeFromDestination(source, destination) then amounts.destination else amounts.source)
    && amounts.source < U128 && amounts.destination < U128
  }

  predicate BoundsFit(bounds: Bounds) {
    bounds.Desired? ==> bounds.value < U128
  }

  lemma DecidedExactOutput(fromDestination: bool, x: nat, y: nat, source: Bounds, destination: Bounds)
    requires 0 < x < U128 && 0 < y < U128 && BoundsFit(destination) && !source.Desired?
    requires DecideSwap(fromDestination, x, y, source, destination).Ok?
    ensures var amounts := DecideSwap(fromDestination, x, y, source, destination).value;
            && amounts.source < U128 && amounts.destination < U128
            && amounts.fee <= (if fromDestination then amounts.destination else amounts.source)
  {
    var amounts := DecideSwap(fromDestination, x, y, source, destination).value;
    assert CalcInputForExactOutput(fromDestination, x, y, amounts.destination) == Ok((amounts.source, amounts.fee));
    ExactOutput(fromDestination, x, y, amounts.destination);
  }

  lemma DecidedSwap(fromDestination: bool, x: nat, y: nat, source: Bounds, destination: Bounds)
    requires 0 < x < U128 && 0 < y < U128 && BoundsFit(source) && BoundsFit(destination)
    requires DecideSwap(fromDestination, x, y, source, destination).Ok?
    ensures var amounts := DecideSwap(fromDestination, x, y, source, destination).value;
            && amounts.source < U128 && amounts.destination < U128
            && amounts.fee <= (if fromDestination then amounts.destination else amounts.source)
  {
    if source.Desired? {
      ExactInputFee(fromDestination, x, y, source.value);
    } else {
      DecidedExactOutput(fromDestination, x, y, source, destination);
    }
  }

  /** The post-swap check fails on an emptied reserve. */
  lemma CheckLeavesReserve(x: nat, y: nat, added: nat, removed: nat)
    requires PostSwapCheck(x, y, added, removed).Ok?
    ensures removed != y
  {
  }

  /** Everything that validation establishes about a swap. */
  lemma ValidSwap(st: State, target: Asset, sender: Account, source: Asset, destination: Asset, sb: Bounds, db: Bounds)
    requires Sound(st) && BoundsFit(sb) && BoundsFit(db)
    requires ValidatedSwap(st, target, sender, source, destination, sb, db).Ok?
    ensures PoolOf(target) in st.registered
    ensures var amounts := ValidatedSwap(st, target, sender, source, destination, sb, db).value;
            && 0 < Reserve(st, source, target) && 0 < Reserve(st, destination, target)
            && amounts.source <= st.Free(source, sender)
            && amounts.destination < Reserve(st, destination, target)
            && FeeCovered(source, destination, amounts)
  {
    var x, y := Reserve(st, source, target), Reserve(st, destination, target);
    HolderBelowIssuance(st, source, PoolOf(target));
    HolderBelowIssuance(st, destination, PoolOf(target));
    DecidedSwap(FeeFromDestination(source, destination), x, y, sb, db);
    var amounts := ValidatedSwap(st, target, sender, source, destination, sb, db).value;
    CheckLeavesReserve(x, y, amounts.source, amounts.destination);
  }

  /** The asset that the fee is taken in. */
  function FeeAsset(source: Asset, destination: Asset): Asset {
    if FeeFromDestination(source, destination) then destination else source
  }

  /** Whichever asset is sold, the fee is charged in the base asset. */
  lemma FeeInBase(source: Asset, destination: Asset, target: Asset)
    requires IsPair(source, destination, target)
    ensures FeeAsset(source, destination) == Base
    ensures FeeFromDestination(source, destination) <==> destination == Base
  {
  }

  /** What a swap does to every balance: the sender pays the source amount and the pool
      the destination amount; the fee goes to the pool's fee account, and the rest of
      either amount to the other party. */
  ghost predicate SwapMoved(st: State, st': State, target: Asset, sender: Account, receiver: Account,
                            source: Asset, destination: Asset, amounts: SwapAmounts)
  {
    && st'.issuance == st.issuance && st'.reserves == st.reserves && st'.registered == st.registered
    && Sound(st')
    && forall x: Asset, who: Account ::
         st'.Free(x, who) == st.Free(x, who)
           - (if x == source && who == sender then amounts.source else 0)
           + (if x == source && who == PoolOf(target) then Added(source, destination, amounts) else 0)
           - (if x == destination && who == PoolOf(target) then amounts.destination else 0)
           + (if x == destination && who == receiver then Delivered(source, destination, amounts) else 0)
           + (if x == FeeAsset(source, destination) && who == FeesOf(target) then amounts.fee else 0)
  }

  lemma ThreeMovesDestination(st: State, st1: State, st2: State, st3: State, target: Asset, sender: Account,
                              receiver: Account, source: Asset, destination: Asset, amounts: SwapAmounts)
    requires IsPair(source, destination, target) && FeeFromDestination(source, destination)
    requires FeeCovered(source, destination, amounts) && !sender.PoolOf? && Sound(st3)
    requires MovedBy(st, st1, source, sender, PoolOf(target), amounts.source)
    requires MovedBy(st1, st2, destination, PoolOf(target), FeesOf(target), amounts.fee)
    requires MovedBy(st2, st3, destination, PoolOf(target), receiver, amounts.destination - amounts.fee)
    ensures SwapMoved(st, st3, target, sender, receiver, source, destination, amounts)
  {
  }

  lemma ThreeMovesSource(st: State, st1: State, st2: State, st3: State, target: Asset, sender: Account,
                         receiver: Account, source: Asset, destination: Asset, amounts: SwapAmounts)
    requires IsPair(source, destination, target) && !FeeFromDestination(source, destination)
    requires FeeCovered(source, destination, amounts) && !sender.PoolOf? && Sound(st3)
    requires MovedBy(st, st1, source, sender, PoolOf(target), amounts.source - amounts.fee)
    requires MovedBy(st1, st2, source, sender, FeesOf(target), amounts.fee)
    requires MovedBy(st2, st3, destination, PoolOf(target), receiver, amounts.destination)
    ensures SwapMoved(st, st3, target, sender, receiver, source, destination, amounts)
  {
  }

  lemma ComposeDestination(st: State, st1: State, st2: State, st3: State, target: Asset, sender: Account,
                           receiver: Account, source: Asset, destination: Asset, amounts: SwapAmounts)
    requires FeeFromDestination(source, destination)
    requires PoolOf(target) in st.registered && PoolOf(target) in st1.registered && PoolOf(target) in st2.registered
    requires Transferred(st, source, sender, PoolOf(target), amounts.source) == Ok(st1)
    requires Transferred(st1, destination, PoolOf(target), FeesOf(target), amounts.fee) == Ok(st2)
    requires Transferred(st2, destination, PoolOf(target), receiver, WrapSub(amounts.destination, amounts.fee)) ==
             Ok(st3)
    ensures ReservedSwap(st, target, sender, receiver, source, destination, amounts) ==
            Ok(Synced(st3, source, destination, target))
  {
  }

  lemma ComposeSource(st: State, st1: State, st2: State, st3: State, target: Asset, sender: Account, receiver: Account,
                      source: Asset, destination: Asset, amounts: SwapAmounts)
    requires !FeeFromDestination(source, destination)
    requires PoolOf(target) in st.registered && FeesOf(target) in st1.registered && PoolOf(target) in st2.registered
    requires Transferred(st, source, sender, PoolOf(target), WrapSub(amounts.source, amounts.fee)) == Ok(st1)
    requires Transferred(st1, source, sender, FeesOf(target), amounts.fee) == Ok(st2)
    requires Transferred(st2, destination, PoolOf(target), receiver, amounts.destination) == Ok(st3)
    ensures ReservedSwap(st, target, sender, receiver, source, destination, amounts) ==
            Ok(Synced(st3, source, destination, target))
  {
  }

  ghost predicate ReadyToSwap(st: State, target: Asset, sender: Account, source: Asset, destination: Asset,
                              amounts: SwapAmounts) {
    && Sound(st) && PoolOf(target) in st.registered && FeesOf(target) in st.registered && !sender.PoolOf?
    && IsPair(source, destination, target) && FeeCovered(source, destination, amounts)
    && amounts.source <= st.Free(source, sender) && amounts.destination <= Reserve(st, destination, target)
  }

  lemma SwapTransfersDestination(st: State, target: Asset, sender: Account, receiver: Account,
                                 source: Asset, destination: Asset, amounts: SwapAmounts) returns (st3: State)
    requires ReadyToSwap(st, target, sender, source, destination, amounts) && FeeFromDestination(source, destination)
    ensures SwapMoved(st, st3, target, sender, receiver, source, destination, amounts)
    ensures ReservedSwap(st, target, sender, receiver, source, destination, amounts) ==
            Ok(Synced(st3, source, destination, target))
  {
    assert WrapSub(amounts.destination, amounts.fee) == amounts.destination - amounts.fee;
    var st1 := TransferStep(st, source, sender, PoolOf(target), amounts.source);
    var st2 := TransferStep(st1, destination, PoolOf(target), FeesOf(target), amounts.fee);
    st3 := TransferStep(st2, destination, PoolOf(target), receiver, amounts.destination - amounts.fee);
    ComposeDestination(st, st1, st2, st3, target, sender, receiver, source, destination, amounts);
    ThreeMovesDestination(st, st1, st2, st3, target, sender, receiver, source, destination, amounts);
  }

  lemma SwapTransfersSource(st: State, target: Asset, sender: Account, receiver: Account,
                            source: Asset, destination: Asset, amounts: SwapAmounts) returns (st3: State)
    requires ReadyToSwap(st, target, sender, source, destination, amounts) && !FeeFromDestination(source, destination)
    ensures SwapMoved(st, st3, target, sender, receiver, source, destination, amounts)
    ensures ReservedSwap(st, target, sender, receiver, source, destination, amounts) ==
            Ok(Synced(st3, source, destination, target))
  {
    assert WrapSub(amounts.source, amounts.fee) == amounts.source - amounts.fee;
    var st1 := TransferStep(st, source, sender, PoolOf(target), amounts.source - amounts.fee);
    var st2 := TransferStep(st1, source, sender, FeesOf(target), amounts.fee);
    st3 := TransferStep(st2, destination, PoolOf(target), receiver, amounts.destination);
    ComposeSource(st, st1, st2, st3, target, sender, receiver, source, destination, amounts);
    ThreeMovesSource(st, st1, st2, st3, target, sender, receiver, source, destination, amounts);
  }

  /** A validated swap always completes; all that happens to pool accounts is known. */
  lemma SwapCompletes(st: State, target: Asset, sender: Account, receiver: Account, source: Asset, destination: Asset,
                      sb: Bounds, db: Bounds) returns (st3: State)
    requires Solvent(st) && !sender.PoolOf? && IsPair(source, destination, target) && BoundsFit(sb) && BoundsFit(db)
    requires ValidatedSwap(st, target, sender, source, destination, sb, db).Ok?
    ensures var amounts := ValidatedSwap(st, target, sender, source, destination, sb, db).value;
            && SwapMoved(st, st3, target, sender, receiver, source, destination, amounts)
            && ReservedSwap(st, target, sender, receiver, source, destination, amounts) ==
                  Ok(Synced(st3, source, destination, target))
  {
    ValidSwap(st, target, sender, source, destination, sb, db);
    var amounts := ValidatedSwap(st, target, sender, source, destination, sb, db).value;
    if FeeFromDestination(source, destination) {
      st3 := SwapTransfersDestination(st, target, sender, receiver, source, destination, amounts);
    } else {
      st3 := SwapTransfersSource(st, target, sender, receiver, source, destination, amounts);
    }
  }

  lemma SwapOthersGain(st: State, st3: State, target: Asset, sender: Account, receiver: Account,
                       source: Asset, destination: Asset, amounts: SwapAmounts)
    requires !sender.PoolOf?
    requires IsPair(source, destination, target) &&
             SwapMoved(st, st3, target, sender, receiver, source, destination, amounts)
    requires Delivered(source, destination, amounts) >= 0
    ensures OthersGain(st, Synced(st3, source, destination, target), target, destination, receiver,
                       Delivered(source, destination, amounts))
  {
    SyncAgrees(st3, source, destination, target);
  }

  lemma SwapOwnPool(st: State, st3: State, target: Asset, sender: Account, receiver: Account,
                    source: Asset, destination: Asset, amounts: SwapAmounts)
    requires !sender.PoolOf?
    requires IsPair(source, destination, target) &&
             SwapMoved(st, st3, target, sender, receiver, source, destination, amounts)
    requires FeeCovered(source, destination, amounts)
    requires 0 < Reserve(st, source, target) && amounts.destination < Reserve(st, destination, target)
    ensures var st' := Synced(st3, source, destination, target);
            Agrees(st', target) && InUse(st', target) && Sound(st')
  {
    SyncAgrees(st3, source, destination, target);
    SyncSound(st3, source, destination, target);
  }

  /** What a swap delivers to its receiver: adding it to the reserve of another pool makes
      the cache entry of that pool stale, and leaves it half empty if it was empty. Nothing
      else that a swap does can harm a pool. */
  lemma SwapKeepsPoolsExactly(st: State, target: Asset, sender: Account, receiver: Account, source: Asset,
                              destination: Asset, sb: Bounds, db: Bounds)
    requires Solvent(st) && !sender.PoolOf? && IsPair(source, destination, target) && BoundsFit(sb) && BoundsFit(db)
    requires ValidatedSwap(st, target, sender, source, destination, sb, db).Ok?
    ensures var amounts := ValidatedSwap(st, target, sender, source, destination, sb, db).value;
            var done := ReservedSwap(st, target, sender, receiver, source, destination, amounts);
            var delivered := Delivered(source, destination, amounts);
            && done.Ok? && delivered >= 0
            && done.value.issuance == st.issuance
            && Agrees(done.value, target) && InUse(done.value, target)
            && OthersGain(st, done.value, target, destination, receiver, delivered)
            && Solvent(done.value)
            && (Whole(st) ==> (Whole(done.value) <==> !FillsHalf(st, target, destination, receiver, delivered)))
            && (CacheAgrees(st) ==> (CacheAgrees(done.value) <==> !Raises(target, destination, receiver, delivered)))
  {
    var amounts := ValidatedSwap(st, target, sender, source, destination, sb, db).value;
    ValidSwap(st, target, sender, source, destination, sb, db);
    var st3 := SwapCompletes(st, target, sender, receiver, source, destination, sb, db);
    SwapOwnPool(st, st3, target, sender, receiver, source, destination, amounts);
    SwapOthersGain(st, st3, target, sender, receiver, source, destination, amounts);
    SyncAgrees(st3, source, destination, target);
    PoolsAfter(st, Synced(st3, source, destination, target), target, destination, receiver,
               Delivered(source, destination, amounts));
  }

  /** The minimal output of an exact-input request survives the fee: the fee is not taken
      from the output, or 99.7% of the output of the whole input exceeds the minimum less
      one base unit. */
  predicate MinimumSurvivesFee(fromDestination: bool, x: nat, y: nat, amount: nat, limit: nat) {
    fromDestination ==> Output(x, y, amount).Ok? && 997 * Output(x, y, amount).value > 1000 * (limit - 1)
  }

  /** A desired output survives the fee: the fee is not taken from it, or is less than one
      base unit. */
  predicate OutputSurvivesFee(fromDestination: bool, amount: nat) {
    fromDestination ==> 3 * amount < 997
  }

  lemma MinimumAfterFee(fromDestination: bool, x: nat, y: nat, amount: nat, limit: nat)
    requires CalcOutputForExactInput(fromDestination, x, y, amount).Ok?
    requires CalcOutputForExactInput(fromDestination, x, y, amount).value.0 >= limit
    ensures var (yOut, fee) := CalcOutputForExactInput(fromDestination, x, y, amount).value;
            yOut - (if fromDestination then fee else 0) >= limit <==>
                MinimumSurvivesFee(fromDestination, x, y, amount, limit)
  {
    if fromDestination { FeeExactly(Output(x, y, amount).value); }
  }

  /** A swap request is kept to its letter before the fee: the desired side is exact, and
      the other side respects its limit. After the fee, the receiver still gets the minimal
      output, or the desired one, exactly when it survives the fee. */
  lemma SwapRespectsRequest(st: State, target: Asset, sender: Account, source: Asset, destination: Asset,
                            request: SwapAmount)
    requires ValidatedSwap(st, target, sender, source, destination, SourceBounds(request),
                           DestinationBounds(request)).Ok?
    ensures var amounts :=
            ValidatedSwap(st, target, sender, source, destination, SourceBounds(request),
                          DestinationBounds(request)).value;
            var x, y := Reserve(st, source, target), Reserve(st, destination, target);
            var fromDestination, delivered := FeeFromDestination(source, destination),
                Delivered(source, destination, amounts);
            && (request.variant.WithDesiredInput? ==>
                  && amounts.source == request.amount && amounts.destination >= request.limit
                  && (delivered >= request.limit <==>
                      MinimumSurvivesFee(fromDestination, x, y, request.amount, request.limit)))
            && (request.variant.WithDesiredOutput? ==>
                  && amounts.source <= request.limit && amounts.destination == request.amount
                  && (delivered == request.amount <==> OutputSurvivesFee(fromDestination, request.amount)))
  {
    var x, y := Reserve(st, source, target), Reserve(st, destination, target);
    if request.variant.WithDesiredOutput? {
      DestinationFee(x, y, request.amount);
    } else {
      MinimumAfterFee(FeeFromDestination(source, destination), x, y, request.amount, request.limit);
    }
  }

  /** The reserves after a swap; if the receiver is the pool itself, it keeps what it delivers. */
  lemma SwapReservesAtLeast(st: State, target: Asset, sender: Account, receiver: Account, source: Asset,
                            destination: Asset, sb: Bounds, db: Bounds)
    requires Solvent(st) && !sender.PoolOf? && IsPair(source, destination, target) && BoundsFit(sb) && BoundsFit(db)
    requires ValidatedSwap(st, target, sender, source, destination, sb, db).Ok?
    ensures var amounts := ValidatedSwap(st, target, sender, source, destination, sb, db).value;
            var done := ReservedSwap(st, target, sender, receiver, source, destination, amounts);
            && done.Ok?
            && Reserve(done.value, source, target) == Reserve(st, source, target) + Added(source, destination, amounts)
            && Reserve(done.value, destination, target) >= Reserve(st, destination, target) - amounts.destination
  {
    ValidSwap(st, target, sender, source, destination, sb, db);
    var st3 := SwapCompletes(st, target, sender, receiver, source, destination, sb, db);
    SyncAgrees(st3, source, destination, target);
  }

  /** The two reserves after a swap whose receiver is not the pool itself. */
  lemma SwapReserves(st: State, target: Asset, sender: Account, receiver: Account, source: Asset, destination: Asset,
                     sb: Bounds, db: Bounds)
    requires Solvent(st) && !sender.PoolOf? && IsPair(source, destination, target) && BoundsFit(sb) && BoundsFit(db)
    requires ValidatedSwap(st, target, sender, source, destination, sb, db).Ok? && receiver != PoolOf(target)
    ensures var amounts := ValidatedSwap(st, target, sender, source, destination, sb, db).value;
            var done := ReservedSwap(st, target, sender, receiver, source, destination, amounts);
            && done.Ok?
            && Reserve(done.value, source, target) == Reserve(st, source, target) + Added(source, destination, amounts)
            && Reserve(done.value, destination, target) == Reserve(st, destination, target) - amounts.destination
  {
    var st3 := SwapCompletes(st, target, sender, receiver, source, destination, sb, db);
    SyncAgrees(st3, source, destination, target);
  }

  /** An exact-input swap keeps the product of the pool's reserves up to explicit
      rounding, in both fee modes. */
  lemma SwapProduct(st: State, target: Asset, sender: Account, receiver: Account, source: Asset, destination: Asset,
                    sa: nat, taMin: nat)
    requires Solvent(st) && !sender.PoolOf? && IsPair(source, destination, target) && sa < U128
    requires ValidatedSwap(st, target, sender, source, destination, Desired(sa), Min(taMin)).Ok? &&
             receiver != PoolOf(target)
    ensures var amounts := ValidatedSwap(st, target, sender, source, destination, Desired(sa), Min(taMin)).value;
            var done := ReservedSwap(st, target, sender, receiver, source, destination, amounts);
            && done.Ok?
            && ProductKept(Reserve(st, source, target), Reserve(st, destination, target),
                           Reserve(done.value, source, target), Reserve(done.value, destination, target))
  {
    SwapReserves(st, target, sender, receiver, source, destination, Desired(sa), Min(taMin));
    var amounts := ValidatedSwap(st, target, sender, source, destination, Desired(sa), Min(taMin)).value;
    var st' := ReservedSwap(st, target, sender, receiver, source, destination, amounts).value;
    ExactInputProduct(FeeFromDestination(source, destination), Reserve(st, source, target),
                      Reserve(st, destination, target), sa,
                      Reserve(st', source, target), Reserve(st', destination, target));
  }

  /** Reserves `x', y'` after an exact-output swap: one more base unit of input would have
      made the product grow, with the fee on the output, or kept it but for one unit of the
      input and of its reserve, with the fee on the input. */
  predicate ProductKeptForOutput(feeFromDestination: bool, x: nat, y: nat, x': int, y': int, input: nat) {
    x * y < (x' + 1) * y' + (if feeFromDestination then 0 else input + 1)
  }

  lemma ExactOutputProduct(feeFromDestination: bool, x: nat, y: nat, yOut: nat, x': int, y': int)
    requires x > 0 && y < U128 && yOut < U128
    requires CalcInputForExactOutput(feeFromDestination, x, y, yOut).Ok?
    requires var (xIn, fee) := CalcInputForExactOutput(feeFromDestination, x, y, yOut).value;
             x' == x + xIn - (if feeFromDestination then 0 else fee) && y' == y - yOut
    ensures ProductKeptForOutput(feeFromDestination, x, y, x', y',
                                 CalcInputForExactOutput(feeFromDestination, x, y, yOut).value.0)
  {
    ExactOutput(feeFromDestination, x, y, yOut);
  }

  lemma OutputSwapCalculated(st: State, target: Asset, sender: Account, source: Asset, destination: Asset, saMax: nat,
                             ta: nat, amounts: SwapAmounts)
    requires ValidatedSwap(st, target, sender, source, destination, Max(saMax), Desired(ta)) == Ok(amounts)
    ensures Reserve(st, source, target) > 0 && amounts.destination == ta
    ensures CalcInputForExactOutput(FeeFromDestination(source, destination), Reserve(st, source, target),
                                    Reserve(st, destination, target), ta) == Ok((amounts.source, amounts.fee))
  {
  }

  lemma SwapReservesOf(st: State, target: Asset, sender: Account, receiver: Account, source: Asset, destination: Asset,
                       sb: Bounds, db: Bounds, amounts: SwapAmounts, st': State)
    requires Solvent(st) && !sender.PoolOf? && IsPair(source, destination, target) && BoundsFit(sb) && BoundsFit(db)
    requires ValidatedSwap(st, target, sender, source, destination, sb, db) == Ok(amounts) && receiver != PoolOf(target)
    requires ReservedSwap(st, target, sender, receiver, source, destination, amounts) == Ok(st')
    ensures Reserve(st', source, target) == Reserve(st, source, target) + Added(source, destination, amounts)
    ensures Reserve(st', destination, target) == Reserve(st, destination, target) - amounts.destination
  {
    SwapReserves(st, target, sender, receiver, source, destination, sb, db);
  }

  lemma ReservesKeptForOutput(st: State, target: Asset, sender: Account, receiver: Account, source: Asset,
                              destination: Asset, saMax: nat, ta: nat, amounts: SwapAmounts, st': State)
    requires Solvent(st) && !sender.PoolOf? && IsPair(source, destination, target) && ta < U128
    requires ValidatedSwap(st, target, sender, source, destination, Max(saMax), Desired(ta)) == Ok(amounts)
    requires ReservedSwap(st, target, sender, receiver, source, destination, amounts) == Ok(st')
    requires receiver != PoolOf(target)
    ensures ProductKeptForOutput(FeeFromDestination(source, destination),
                                 Reserve(st, source, target), Reserve(st, destination, target),
                                 Reserve(st', source, target), Reserve(st', destination, target), amounts.source)
  {
    SwapReservesOf(st, target, sender, receiver, source, destination, Max(saMax), Desired(ta), amounts, st');
    OutputSwapCalculated(st, target, sender, source, destination, saMax, ta, amounts);
    HolderBelowIssuance(st, destination, PoolOf(target));
    ExactOutputProduct(FeeFromDestination(source, destination), Reserve(st, source, target),
                       Reserve(st, destination, target), ta,
                       Reserve(st', source, target), Reserve(st', destination, target));
  }

  /** An exact-output swap keeps the product of the pool's reserves up to explicit rounding,
      in both fee modes. */
  lemma SwapProductForOutput(st: State, target: Asset, sender: Account, receiver: Account, source: Asset,
                             destination: Asset, saMax: nat, ta: nat)
    requires Solvent(st) && !sender.PoolOf? && IsPair(source, destination, target) && ta < U128
    requires ValidatedSwap(st, target, sender, source, destination, Max(saMax), Desired(ta)).Ok? &&
             receiver != PoolOf(target)
    ensures var amounts := ValidatedSwap(st, target, sender, source, destination, Max(saMax), Desired(ta)).value;
            var done := ReservedSwap(st, target, sender, receiver, source, destination, amounts);
            && done.Ok?
            && ProductKeptForOutput(FeeFromDestination(source, destination),
                                    Reserve(st, source, target), Reserve(st, destination, target),
                                    Reserve(done.value, source, target), Reserve(done.value, destination, target),
                                    amounts.source)
  {
    SwapReserves(st, target, sender, receiver, source, destination, Max(saMax), Desired(ta));
    var amounts := ValidatedSwap(st, target, sender, source, destination, Max(saMax), Desired(ta)).value;
    ReservesKeptForOutput(st, target, sender, receiver, source, destination, saMax, ta, amounts,
                          ReservedSwap(st, target, sender, receiver, source, destination, amounts).value);
  }

  lemma SwapPriced(st: State, target: Asset, sender: Account, source: Asset, destination: Asset, saMax: nat, ta: nat)
    requires Solvent(st) && ta < U128
    requires ValidatedSwap(st, target, sender, source, destination, Max(saMax), Desired(ta)).Ok?
    ensures var amounts := ValidatedSwap(st, target, sender, source, destination, Max(saMax), Desired(ta)).value;
            ExactOutputCharged(FeeFromDestination(source, destination), Reserve(st, source, target),
                               Reserve(st, destination, target), ta, amounts.source, amounts.fee)
  {
    HolderBelowIssuance(st, destination, PoolOf(target));
    ExactOutputPrice(FeeFromDestination(source, destination), Reserve(st, source, target),
                     Reserve(st, destination, target), ta);
  }

  /** From reserves `x, y` to `x', y'`, with an input of which a fee on it does not arrive. */
  predicate ReservesCharged(feeFromDestination: bool, x: nat, y: nat, x': nat, y': nat, input: nat, fee: nat) {
    && y' <= y && x' + (if feeFromDestination then 0 else fee) == x + input
    && ExactOutputCharged(feeFromDestination, x, y, y - y', input, fee)
  }

  lemma ReservesAreCharged(feeFromDestination: bool, x: nat, y: nat, x': nat, y': nat, yOut: nat, input: nat, fee: nat)
    requires ExactOutputCharged(feeFromDestination, x, y, yOut, input, fee)
    requires y' == y - yOut && x' == x + input - (if feeFromDestination then 0 else fee)
    ensures ReservesCharged(feeFromDestination, x, y, x', y', input, fee)
  {
  }

  lemma OutputSwapAmounts(st: State, target: Asset, sender: Account, source: Asset, destination: Asset, saMax: nat,
                          ta: nat, amounts: SwapAmounts)
    requires Solvent(st) && ta < U128
    requires ValidatedSwap(st, target, sender, source, destination, Max(saMax), Desired(ta)) == Ok(amounts)
    ensures amounts.destination == ta
    ensures ExactOutputCharged(FeeFromDestination(source, destination), Reserve(st, source, target),
                               Reserve(st, destination, target), ta, amounts.source, amounts.fee)
  {
    SwapPriced(st, target, sender, source, destination, saMax, ta);
  }

  /** An exact-output swap adds to the source reserve the exact price of what leaves the other one,
      within explicit rounding either way, less a fee on the input; the fee is exact. */
  lemma SwapChargesForOutput(st: State, target: Asset, sender: Account, receiver: Account, source: Asset,
                             destination: Asset, saMax: nat, ta: nat, amounts: SwapAmounts, st': State)
    requires Solvent(st) && !sender.PoolOf? && IsPair(source, destination, target) && ta < U128
    requires ValidatedSwap(st, target, sender, source, destination, Max(saMax), Desired(ta)) == Ok(amounts)
    requires ReservedSwap(st, target, sender, receiver, source, destination, amounts) == Ok(st')
    requires receiver != PoolOf(target)
    ensures amounts.destination == ta
    ensures ReservesCharged(FeeFromDestination(source, destination), Reserve(st, source, target),
                            Reserve(st, destination, target), Reserve(st', source, target),
                            Reserve(st', destination, target), amounts.source, amounts.fee)
  {
    OutputSwapAmounts(st, target, sender, source, destination, saMax, ta, amounts);
    SwapReservesOf(st, target, sender, receiver, source, destination, Max(saMax), Desired(ta), amounts, st');
    ReservesAreCharged(FeeFromDestination(source, destination), Reserve(st, source, target),
                       Reserve(st, destination, target), Reserve(st', source, target),
                       Reserve(st', destination, target), ta, amounts.source, amounts.fee);
  }

  // ----- which requests are accepted

  /** The amounts quoted for a request at the reserves `x, y`: the desired one, and what is
      calculated for the other side and the fee. */
  function QuotedSwap(fromDestination: bool, x: nat, y: nat, request: SwapAmount): PoolResult<SwapAmounts> {
    match request.variant
    case WithDesiredInput =>
      var output :- CalcOutputForExactInput(fromDestination, x, y, request.amount);
      Ok(SwapAmounts(request.amount, output.0, output.1))
    case WithDesiredOutput =>
      var input :- CalcInputForExactOutput(fromDestination, x, y, request.amount);
      Ok(SwapAmounts(input.0, request.amount, input.1))
  }

  /** The amount that is not desired keeps its limit, and the other reserve and the sender's
      balance suffice; and the ratio of the reserves rises by less than ten. */
  predicate SwapAcceptable(x: nat, y: nat, held: nat, request: SwapAmount, amounts: SwapAmounts) {
    && (if request.variant.WithDesiredInput? then amounts.destination >= request.limit
        else amounts.source <= request.limit)
    && amounts.source <= held && amounts.destination <= y
    && RatioKept(x, y, amounts.source, amounts.destination)
  }

  lemma RequestDecided(fromDestination: bool, x: nat, y: nat, request: SwapAmount, amounts: SwapAmounts)
    requires request.amount > 0 && QuotedSwap(fromDestination, x, y, request) == Ok(amounts)
    ensures var kept := if request.variant.WithDesiredInput? then amounts.destination >= request.limit
                        else amounts.source <= request.limit;
            DecideSwap(fromDestination, x, y, SourceBounds(request), DestinationBounds(request)) ==
            if kept then Ok(amounts) else Err(CalculatedValueIsOutOfDesiredBounds)
  {
  }

  /** Why a request is refused whatever it asks for: an unregistered pool, a sender without funds, or
      an empty pool. */
  function RefusedBeforehand(st: State, target: Asset, funded: bool, empty: bool): Option<PoolError> {
    if PoolOf(target) !in st.registered then Some(TechAccountIdIsNotRegistered)
    else if !funded then Some(AccountBalanceIsInvalid)
    else if empty then Some(PoolIsEmpty)
    else None
  }

  /** A swap needs some of the asset that is sold, and a pool that is not empty. */
  lemma SwapRefusedBeforehand(st: State, target: Asset, sender: Account, a: Asset, b: Asset, x: Bounds, y: Bounds,
                              e: PoolError)
    requires RefusedBeforehand(st, target, st.Free(a, sender) > 0,
                               Reserve(st, a, target) == 0 && Reserve(st, b, target) == 0) == Some(e)
    ensures ValidatedSwap(st, target, sender, a, b, x, y) == Err(e)
  {
  }

  /** A deposit needs some of either asset. */
  lemma DepositRefusedBeforehand(st: State, target: Asset, sender: Account, a: Asset, b: Asset, x: Bounds, y: Bounds,
                                 e: PoolError)
    requires RefusedBeforehand(st, target, st.Free(a, sender) > 0 && st.Free(b, sender) > 0, false) == Some(e)
    ensures ValidatedDeposit(st, target, sender, a, b, x, y) == Err(e)
  {
  }

  /** A withdrawal needs some marker, and a pool that is not empty. */
  lemma WithdrawRefusedBeforehand(st: State, target: Asset, sender: Account, a: Asset, b: Asset, markers: Bounds,
                                  x: Bounds, y: Bounds, e: PoolError)
    requires RefusedBeforehand(st, target, st.Free(Marker(target), sender) > 0,
                               Reserve(st, a, target) == 0 && Reserve(st, b, target) == 0) == Some(e)
    ensures ValidatedWithdraw(st, target, sender, a, b, markers, x, y) == Err(e)
  {
  }
 /** A swap request to a pool in use whose amounts can be calculated is accepted exactly when they
      are acceptable. */
  lemma SwapAcceptedExactly(st: State, target: Asset, sender: Account, source: Asset, destination: Asset,
                            request: SwapAmount, amounts: SwapAmounts)
    requires PoolOf(target) in st.registered && st.Free(source, sender) > 0 && request.amount > 0
    requires Reserve(st, source, target) > 0 && Reserve(st, destination, target) > 0
    requires QuotedSwap(FeeFromDestination(source, destination), Reserve(st, source, target),
                        Reserve(st, destination, target), request) == Ok(amounts)
    ensures var r := ValidatedSwap(st, target, sender, source, destination, SourceBounds(request),
                                   DestinationBounds(request));
            && (r.Ok? <==> SwapAcceptable(Reserve(st, source, target), Reserve(st, destination, target),
                                          st.Free(source, sender), request, amounts))
            && (r.Ok? ==> r.value == amounts)
  {
    var x, y := Reserve(st, source, target), Reserve(st, destination, target);
    RequestDecided(FeeFromDestination(source, destination), x, y, request, amounts);
    if amounts.destination <= y { PostSwapExactly(x, y, amounts.source, amounts.destination); }
  }

  /** A swap with both amounts desired is as desired, if it is accepted, and both formulas agree on
      it: the product of the reserves is kept, and the input is the exact price of the output. */
  lemma BothDesired(fromDestination: bool, x: nat, y: nat, sa: nat, ta: nat, x': nat, y': int)
    requires x > 0 && y < U128 && ta < U128 && DecideSwap(fromDestination, x, y, Desired(sa), Desired(ta)).Ok?
    requires var fee := DecideSwap(fromDestination, x, y, Desired(sa), Desired(ta)).value.fee;
             x' == x + sa - (if fromDestination then 0 else fee) && y' == y - ta
    ensures var amounts := DecideSwap(fromDestination, x, y, Desired(sa), Desired(ta)).value;
            && amounts.source == sa > 0 && amounts.destination == ta > 0
            && ProductKept(x, y, x', y') && ExactOutputCharged(fromDestination, x, y, ta, sa, amounts.fee)
  {
    ExactInputProduct(fromDestination, x, y, sa, x', y');
    ExactOutputPrice(fromDestination, x, y, ta);
  }

  /** A funded withdrawal from a pool in use whose two payments can be calculated is accepted
      exactly when both reach their minima. */
  lemma WithdrawAcceptedExactly(st: State, target: Asset, sender: Account, a: Asset, b: Asset, request: WithdrawRequest,
                                paidA: nat, paidB: nat)
    requires PoolOf(target) in st.registered && 0 < request.markers <= st.Free(Marker(target), sender)
    requires Reserve(st, a, target) > 0 && Reserve(st, b, target) > 0
    requires WithdrawShare(Reserve(st, a, target), request.markers, st.Issued(Marker(target))) == Ok(paidA)
    requires WithdrawShare(Reserve(st, b, target), request.markers, st.Issued(Marker(target))) == Ok(paidB)
    ensures ValidatedWithdraw(st, target, sender, a, b, Desired(request.markers), Min(request.aMin),
                              Min(request.bMin)) ==
            if request.aMin <= paidA && request.bMin <= paidB then Ok(WithdrawAmounts(paidA, paidB, request.markers))
            else Err(CalculatedValueIsNotMeetsRequiredBoundaries)
  {
  }

  /** A deposit of the two desired amounts into an empty pool is accepted exactly when the sender
      holds them and their root exists and is at least 500. */
  lemma FirstDepositAcceptedExactly(st: State, target: Asset, sender: Account, a: Asset, b: Asset,
                                    request: DepositRequest)
    requires PoolOf(target) in st.registered && st.Free(a, sender) > 0 && st.Free(b, sender) > 0
    requires Reserve(st, a, target) == 0 && Reserve(st, b, target) == 0
    ensures var root := PoolRoot(request.aDesired, request.bDesired);
            ValidatedDeposit(st, target, sender, a, b, RangeFromDesiredToMin(request.aDesired, request.aMin),
                             RangeFromDesiredToMin(request.bDesired, request.bMin)).Ok? <==>
            && root.Ok? && root.value >= 500
            && request.aDesired <= st.Free(a, sender) && request.bDesired <= st.Free(b, sender)
  {
  }

  /** A deposit into a pool in use is accepted exactly when its amounts can be calculated, the
      sender holds them, and their markers make up what the root of the reserves, which exists,
      lacks of 1000. */
  lemma LaterDepositAcceptedExactly(st: State, target: Asset, sender: Account, a: Asset, b: Asset,
                                    request: DepositRequest)
    requires PoolOf(target) in st.registered && st.Free(a, sender) > 0 && st.Free(b, sender) > 0
    requires 0 < Reserve(st, a, target) <= MAX && 0 < Reserve(st, b, target) <= MAX
    requires request.aMin <= request.aDesired && request.bMin <= request.bDesired
    ensures PoolRoot(Reserve(st, a, target), Reserve(st, b, target)).Ok?
    ensures var x, y := Reserve(st, a, target), Reserve(st, b, target);
            var amounts := CalcDepositLiquidity(st.Issued(Marker(target)), x, y, request.aDesired, request.bDesired,
                                                request.aMin, request.bMin);
            ValidatedDeposit(st, target, sender, a, b, RangeFromDesiredToMin(request.aDesired, request.aMin),
                             RangeFromDesiredToMin(request.bDesired, request.bMin)).Ok? <==>
            && amounts.Ok? && amounts.value.0 <= st.Free(a, sender) && amounts.value.1 <= st.Free(b, sender)
            && PoolRoot(x, y).value + amounts.value.2 >= MIN_LIQUIDITY
  {
    PoolRootAbove(Reserve(st, a, target), Reserve(st, b, target));
  }

  // ----- deposits

  /** What a deposit does to every balance and issuance. */
  ghost predicate DepositMoved(st: State, st': State, target: Asset, sender: Account, a: Asset, b: Asset,
                               amounts: DepositAmounts) {
    && Sound(st') && st'.registered == st.registered && st'.reserves == st.reserves
    && (forall x: Asset :: st'.Issued(x) == st.Issued(x) + if x == Marker(target) then amounts.markers else 0)
    && forall x: Asset, who: Account ::
         st'.Free(x, who) == st.Free(x, who)
           - (if x == a && who == sender then amounts.a else 0)
           + (if x == a && who == PoolOf(target) then amounts.a else 0)
           - (if x == b && who == sender then amounts.b else 0)
           + (if x == b && who == PoolOf(target) then amounts.b else 0)
           + (if x == Marker(target) && who == sender then amounts.markers else 0)
  }

  ghost predicate ReadyToDeposit(st: State, target: Asset, sender: Account, a: Asset, b: Asset,
                                 amounts: DepositAmounts) {
    && Sound(st) && PoolOf(target) in st.registered && !sender.PoolOf? && IsPair(a, b, target)
    && amounts.a <= st.Free(a, sender) && amounts.b <= st.Free(b, sender)
    && st.Issued(Marker(target)) + amounts.markers < U128
  }

  lemma ComposeDeposit(st: State, st1: State, st2: State, st3: State, target: Asset, sender: Account, a: Asset,
                       b: Asset, amounts: DepositAmounts)
    requires PoolOf(target) in st.registered && PoolOf(target) in st1.registered
    requires Transferred(st, a, sender, PoolOf(target), amounts.a) == Ok(st1)
    requires Transferred(st1, b, sender, PoolOf(target), amounts.b) == Ok(st2)
    requires Minted(st2, Marker(target), sender, amounts.markers) == Ok(st3)
    ensures ReservedDeposit(st, target, sender, a, b, amounts) == Ok(Synced(st3, a, b, target))
  {
  }

  /** Issued to, or burned from, one account. */
  ghost predicate IssuedTo(st: State, st': State, asset: Asset, who: Account, amount: int) {
    && st'.registered == st.registered && st'.reserves == st.reserves
    && (forall x: Asset :: st'.Issued(x) == st.Issued(x) + if x == asset then amount else 0)
    && forall x: Asset, w: Account :: st'.Free(x, w) == st.Free(x, w) + if x == asset && w == who then amount else 0
  }

  lemma ThreeMovesDeposit(st: State, st1: State, st2: State, st3: State, target: Asset, sender: Account, a: Asset,
                          b: Asset, amounts: DepositAmounts)
    requires MovedBy(st, st1, a, sender, PoolOf(target), amounts.a) &&
             MovedBy(st1, st2, b, sender, PoolOf(target), amounts.b)
    requires IssuedTo(st2, st3, Marker(target), sender, amounts.markers) && Sound(st3)
    ensures DepositMoved(st, st3, target, sender, a, b, amounts)
  {
  }

  lemma MintIssues(st: State, asset: Asset, to: Account, amount: nat)
    requires Minted(st, asset, to, amount).Ok?
    ensures IssuedTo(st, Minted(st, asset, to, amount).value, asset, to, amount)
  {
    SetFree(st, asset, to, st.Free(asset, to) + amount);
    var st' := Minted(st, asset, to, amount).value;
    assert st'.books == st.Set(asset, to, st.Free(asset, to) + amount).books;
  }

  lemma DepositTransfers(st: State, target: Asset, sender: Account, a: Asset, b: Asset, amounts: DepositAmounts)
    returns (st3: State)
    requires ReadyToDeposit(st, target, sender, a, b, amounts)
    ensures DepositMoved(st, st3, target, sender, a, b, amounts)
    ensures ReservedDeposit(st, target, sender, a, b, amounts) == Ok(Synced(st3, a, b, target))
  {
    var st1 := TransferStep(st, a, sender, PoolOf(target), amounts.a);
    var st2 := TransferStep(st1, b, sender, PoolOf(target), amounts.b);
    MintSound(st2, Marker(target), sender, amounts.markers);
    st3 := Minted(st2, Marker(target), sender, amounts.markers).value;
    MintIssues(st2, Marker(target), sender, amounts.markers);
    ComposeDeposit(st, st1, st2, st3, target, sender, a, b, amounts);
    ThreeMovesDeposit(st, st1, st2, st3, target, sender, a, b, amounts);
  }

  lemma ValidFirstDeposit(st: State, target: Asset, sender: Account, a: Asset, b: Asset, ab: Bounds, bb: Bounds)
    requires Solvent(st) && !sender.PoolOf? && IsPair(a, b, target)
    requires ValidatedDeposit(st, target, sender, a, b, ab, bb).Ok? && Reserve(st, Base, target) == 0
    ensures ab.Known().Some? && bb.Known().Some?
    ensures Reserve(st, a, target) == Reserve(st, b, target) == st.Issued(Marker(target)) == 0
    ensures var x, y := ab.Known().value, bb.Known().value;
            && PoolRoot(x, y).Ok? && 2 * PoolRoot(x, y).value >= MIN_LIQUIDITY && x > 0 && y > 0
            && ValidatedDeposit(st, target, sender, a, b, ab, bb).value ==
                 DepositAmounts(x, y, WrapSub(PoolRoot(x, y).value, MIN_LIQUIDITY))
            && ReadyToDeposit(st, target, sender, a, b, ValidatedDeposit(st, target, sender, a, b, ab, bb).value)
  {
    assert Reserve(st, a, target) == 0 && Reserve(st, b, target) == 0;
    assert EmptyUnissued(st, target);
    PoolRootBelow(ab.Known().value, bb.Known().value);
  }

  lemma DecidedDeposit(supply: nat, x: nat, y: nat, ab: Bounds, bb: Bounds)
    requires DecideDeposit(supply, x, y, ab, bb).Ok?
    ensures supply + DecideDeposit(supply, x, y, ab, bb).value.markers < U128
  {
    var r := CalcDepositLiquidity(supply, x, y, ab.desired, bb.desired, ab.min, bb.min).value;
    MarkersBracket(r.0, x, supply);
  }

  lemma ValidLaterDeposit(st: State, target: Asset, sender: Account, a: Asset, b: Asset, ab: Bounds, bb: Bounds)
    requires Solvent(st) && !sender.PoolOf? && IsPair(a, b, target)
    requires ValidatedDeposit(st, target, sender, a, b, ab, bb).Ok? && Reserve(st, Base, target) != 0
    ensures ReadyToDeposit(st, target, sender, a, b, ValidatedDeposit(st, target, sender, a, b, ab, bb).value)
    ensures Reserve(st, a, target) > 0 && Reserve(st, b, target) > 0
  {
    var x, y, supply := Reserve(st, a, target), Reserve(st, b, target), st.Issued(Marker(target));
    assert x > 0 && y > 0;
    DecidedDeposit(supply, x, y, ab, bb);
  }

  lemma LesserMarkers(amount: nat, reserve: nat, supply: nat, markers: nat)
    requires ToBalance(MarkersFx(amount, reserve, supply)).Ok? &&
             markers <= ToBalance(MarkersFx(amount, reserve, supply)).value
    ensures supply <= reserve * S && markers * (reserve * S - supply) <= amount * S * supply
    ensures markers == ToBalance(MarkersFx(amount, reserve, supply)).value ==> amount * supply < (markers + 1) * reserve
  {
    MarkersBracket(amount, reserve, supply);
    var m, spare := ToBalance(MarkersFx(amount, reserve, supply)).value, reserve * S - supply;
    if spare >= 0 { MulMono(markers, m, spare); }
    else { MulMono(spare, 0, markers); MulMono(0, amount * S, supply); }
  }

  /** The amounts of a deposit into a pool in use: between their bounds, one of them as
      desired, the other one matching it without exceeding the pool ratio; and markers
      for the smaller of the two shares, within rounding of it, and not above it on a side
      precisely when the floors compensate on that side. */
  lemma LaterDepositAmounts(supply: nat, x: nat, y: nat, request: DepositRequest)
    requires request.aMin <= request.aDesired && request.bMin <= request.bDesired
    requires DecideDeposit(supply, x, y, RangeFromDesiredToMin(request.aDesired, request.aMin),
                           RangeFromDesiredToMin(request.bDesired, request.bMin)).Ok?
    ensures var amounts := DecideDeposit(supply, x, y, RangeFromDesiredToMin(request.aDesired, request.aMin),
                                         RangeFromDesiredToMin(request.bDesired, request.bMin)).value;
            && request.aMin <= amounts.a <= request.aDesired && request.bMin <= amounts.b <= request.bDesired
            && OneSideDesired((amounts.a, amounts.b), request.aDesired, request.bDesired, x, y)
            && supply <= x * S && amounts.markers * (x * S - supply) <= amounts.a * S * supply
            && supply <= y * S && amounts.markers * (y * S - supply) <= amounts.b * S * supply
            && (amounts.a * supply < (amounts.markers + 1) * x || amounts.b * supply < (amounts.markers + 1) * y)
            && supply > 0
            && (amounts.markers * x <= amounts.a * supply <==> FloorsCompensate(amounts.markers, amounts.a, x, supply))
            && (amounts.markers * y <= amounts.b * supply <==> FloorsCompensate(amounts.markers, amounts.b, y, supply))
  {
    MintedWithinShareExactly(supply, x, y, request.aDesired, request.bDesired, request.aMin, request.bMin);
    OptimalDeposit(x, y, request.aDesired, request.bDesired, request.aMin, request.bMin);
    var (a, b) := CalculateOptimalDeposit(x, y, request.aDesired, request.bDesired, request.aMin, request.bMin).value;
    var lhs, rhs := ToBalance(MarkersFx(a, x, supply)).value, ToBalance(MarkersFx(b, y, supply)).value;
    LesserMarkers(a, x, supply, if lhs <= rhs then lhs else rhs);
    LesserMarkers(b, y, supply, if lhs <= rhs then lhs else rhs);
  }

  /** Everything that validation establishes about a deposit; a first deposit has a
      root of at least 500, so both its amounts are positive. */
  lemma ValidDeposit(st: State, target: Asset, sender: Account, a: Asset, b: Asset, ab: Bounds, bb: Bounds)
    requires Solvent(st) && !sender.PoolOf? && IsPair(a, b, target)
    requires ValidatedDeposit(st, target, sender, a, b, ab, bb).Ok?
    ensures var amounts := ValidatedDeposit(st, target, sender, a, b, ab, bb).value;
            && ReadyToDeposit(st, target, sender, a, b, amounts)
            && Reserve(st, a, target) + amounts.a > 0 && Reserve(st, b, target) + amounts.b > 0
  {
    if Reserve(st, Base, target) == 0 {
      ValidFirstDeposit(st, target, sender, a, b, ab, bb);
    } else {
      ValidLaterDeposit(st, target, sender, a, b, ab, bb);
    }
  }

  lemma DepositedPool(st: State, st3: State, target: Asset, sender: Account, a: Asset, b: Asset,
                      amounts: DepositAmounts)
    requires IsPair(a, b, target) && !sender.PoolOf? && DepositMoved(st, st3, target, sender, a, b, amounts)
    requires Reserve(st, a, target) + amounts.a > 0 && Reserve(st, b, target) + amounts.b > 0
    ensures var st' := Synced(st3, a, b, target);
            && OthersKept(st, st', target) && Agrees(st', target) && InUse(st', target) && Sound(st')
            && Reserve(st', a, target) == Reserve(st, a, target) + amounts.a
            && Reserve(st', b, target) == Reserve(st, b, target) + amounts.b
            && forall x: Asset :: st'.Issued(x) == st.Issued(x) + if x == Marker(target) then amounts.markers else 0
  {
    SyncAgrees(st3, a, b, target);
    SyncSound(st3, a, b, target);
  }

  /** A validated deposit always completes and harms no pool. */
  lemma DepositKeepsPools(st: State, target: Asset, sender: Account, a: Asset, b: Asset, ab: Bounds, bb: Bounds)
    requires Solvent(st) && !sender.PoolOf? && IsPair(a, b, target)
    requires ValidatedDeposit(st, target, sender, a, b, ab, bb).Ok?
    ensures var amounts := ValidatedDeposit(st, target, sender, a, b, ab, bb).value;
            var done := ReservedDeposit(st, target, sender, a, b, amounts);
            && done.Ok? && PoolsKept(st, done.value)
            && OthersKept(st, done.value, target)
            && Reserve(done.value, a, target) == Reserve(st, a, target) + amounts.a
            && Reserve(done.value, b, target) == Reserve(st, b, target) + amounts.b
            && forall x: Asset ::
                 done.value.Issued(x) == st.Issued(x) + if x == Marker(target) then amounts.markers else 0
  {
    var amounts := ValidatedDeposit(st, target, sender, a, b, ab, bb).value;
    ValidDeposit(st, target, sender, a, b, ab, bb);
    var st3 := DepositTransfers(st, target, sender, a, b, amounts);
    DepositedPool(st, st3, target, sender, a, b, amounts);
    PoolsAfter(st, Synced(st3, a, b, target), target, Base, User(0), 0);
  }

  // ----- withdrawals

  /** What a withdrawal does to every balance and issuance. */
  ghost predicate WithdrawMoved(st: State, st': State, target: Asset, sender: Account, a: Asset, b: Asset,
                                amounts: WithdrawAmounts) {
    && Sound(st') && st'.registered == st.registered && st'.reserves == st.reserves
    && (forall x: Asset :: st'.Issued(x) == st.Issued(x) - if x == Marker(target) then amounts.markers else 0)
    && forall x: Asset, who: Account ::
         st'.Free(x, who) == st.Free(x, who)
           + (if x == a && who == sender then amounts.a else 0)
           - (if x == a && who == PoolOf(target) then amounts.a else 0)
           + (if x == b && who == sender then amounts.b else 0)
           - (if x == b && who == PoolOf(target) then amounts.b else 0)
           - (if x == Marker(target) && who == sender then amounts.markers else 0)
  }

  ghost predicate ReadyToWithdraw(st: State, target: Asset, sender: Account, a: Asset, b: Asset,
                                  amounts: WithdrawAmounts) {
    && Sound(st) && PoolOf(target) in st.registered && !sender.PoolOf? && IsPair(a, b, target)
    && amounts.a <= Reserve(st, a, target) && amounts.b <= Reserve(st, b, target)
    && amounts.markers <= st.Free(Marker(target), sender)
  }

  lemma ComposeWithdraw(st: State, st1: State, st2: State, st3: State, target: Asset, sender: Account, a: Asset,
                        b: Asset, amounts: WithdrawAmounts)
    requires PoolOf(target) in st.registered && PoolOf(target) in st1.registered
    requires Transferred(st, a, PoolOf(target), sender, amounts.a) == Ok(st1)
    requires Transferred(st1, b, PoolOf(target), sender, amounts.b) == Ok(st2)
    requires Burned(st2, Marker(target), sender, amounts.markers) == Ok(st3)
    ensures ReservedWithdraw(st, target, sender, a, b, amounts) == Ok(Synced(st3, a, b, target))
  {
  }

  lemma ThreeMovesWithdraw(st: State, st1: State, st2: State, st3: State, target: Asset, sender: Account, a: Asset,
                           b: Asset, amounts: WithdrawAmounts)
    requires MovedBy(st, st1, a, PoolOf(target), sender, amounts.a) &&
             MovedBy(st1, st2, b, PoolOf(target), sender, amounts.b)
    requires IssuedTo(st2, st3, Marker(target), sender, -(amounts.markers as int)) && Sound(st3)
    ensures WithdrawMoved(st, st3, target, sender, a, b, amounts)
  {
  }

  lemma BurnIssues(st: State, asset: Asset, from: Account, amount: nat)
    requires Burned(st, asset, from, amount).Ok?
    ensures IssuedTo(st, Burned(st, asset, from, amount).value, asset, from, -(amount as int))
  {
    SetFree(st, asset, from, st.Free(asset, from) - amount);
    var st' := Burned(st, asset, from, amount).value;
    assert st'.books == st.Set(asset, from, st.Free(asset, from) - amount).books;
  }

  lemma WithdrawTransfers(st: State, target: Asset, sender: Account, a: Asset, b: Asset, amounts: WithdrawAmounts)
    returns (st3: State)
    requires ReadyToWithdraw(st, target, sender, a, b, amounts)
    ensures WithdrawMoved(st, st3, target, sender, a, b, amounts)
    ensures ReservedWithdraw(st, target, sender, a, b, amounts) == Ok(Synced(st3, a, b, target))
  {
    var st1 := TransferStep(st, a, PoolOf(target), sender, amounts.a);
    var st2 := TransferStep(st1, b, PoolOf(target), sender, amounts.b);
    BurnSucceeds(st2, Marker(target), sender, amounts.markers);
    BurnSound(st2, Marker(target), sender, amounts.markers);
    st3 := Burned(st2, Marker(target), sender, amounts.markers).value;
    BurnIssues(st2, Marker(target), sender, amounts.markers);
    ComposeWithdraw(st, st1, st2, st3, target, sender, a, b, amounts);
    ThreeMovesWithdraw(st, st1, st2, st3, target, sender, a, b, amounts);
  }

  /** Everything that validation establishes about a withdrawal: each payment is
      strictly below its reserve, so no further check of the reserves is needed. */
  lemma ValidWithdraw(st: State, target: Asset, sender: Account, a: Asset, b: Asset, mb: Bounds, ab: Bounds, bb: Bounds)
    requires Solvent(st) && !sender.PoolOf? && IsPair(a, b, target)
    requires ValidatedWithdraw(st, target, sender, a, b, mb, ab, bb).Ok?
    ensures var amounts := ValidatedWithdraw(st, target, sender, a, b, mb, ab, bb).value;
            var x, y, supply := Reserve(st, a, target), Reserve(st, b, target), st.Issued(Marker(target));
            && ReadyToWithdraw(st, target, sender, a, b, amounts)
            && amounts.a < x && amounts.b < y && 0 < amounts.markers <= supply
            && WithdrawShare(x, amounts.markers, supply) == Ok(amounts.a)
            && WithdrawShare(y, amounts.markers, supply) == Ok(amounts.b)
  {
    var amounts := ValidatedWithdraw(st, target, sender, a, b, mb, ab, bb).value;
    var supply := st.Issued(Marker(target));
    HolderBelowIssuance(st, Marker(target), sender);
    WithdrawBracket(Reserve(st, a, target), amounts.markers, supply);
    WithdrawBracket(Reserve(st, b, target), amounts.markers, supply);
  }

  lemma WithdrawnPool(st: State, st3: State, target: Asset, sender: Account, a: Asset, b: Asset,
                      amounts: WithdrawAmounts)
    requires IsPair(a, b, target) && !sender.PoolOf? && WithdrawMoved(st, st3, target, sender, a, b, amounts)
    requires amounts.a < Reserve(st, a, target) && amounts.b < Reserve(st, b, target)
    ensures var st' := Synced(st3, a, b, target);
            && OthersKept(st, st', target) && Agrees(st', target) && InUse(st', target) && Sound(st')
            && Reserve(st', a, target) == Reserve(st, a, target) - amounts.a
            && Reserve(st', b, target) == Reserve(st, b, target) - amounts.b
            && forall x: Asset :: st'.Issued(x) == st.Issued(x) - if x == Marker(target) then amounts.markers else 0
  {
    SyncAgrees(st3, a, b, target);
    SyncSound(st3, a, b, target);
  }

  /** A validated withdrawal always completes and harms no pool. */
  lemma WithdrawKeepsPools(st: State, target: Asset, sender: Account, a: Asset, b: Asset, mb: Bounds, ab: Bounds,
                           bb: Bounds)
    requires Solvent(st) && !sender.PoolOf? && IsPair(a, b, target)
    requires ValidatedWithdraw(st, target, sender, a, b, mb, ab, bb).Ok?
    ensures var amounts := ValidatedWithdraw(st, target, sender, a, b, mb, ab, bb).value;
            var done := ReservedWithdraw(st, target, sender, a, b, amounts);
            && done.Ok? && PoolsKept(st, done.value)
            && OthersKept(st, done.value, target)
            && Reserve(done.value, a, target) == Reserve(st, a, target) - amounts.a
            && Reserve(done.value, b, target) == Reserve(st, b, target) - amounts.b
            && forall x: Asset ::
                 done.value.Issued(x) == st.Issued(x) - if x == Marker(target) then amounts.markers else 0
  {
    var amounts := ValidatedWithdraw(st, target, sender, a, b, mb, ab, bb).value;
    ValidWithdraw(st, target, sender, a, b, mb, ab, bb);
    var st3 := WithdrawTransfers(st, target, sender, a, b, amounts);
    WithdrawnPool(st, st3, target, sender, a, b, amounts);
    PoolsAfter(st, Synced(st3, a, b, target), target, Base, User(0), 0);
  }

  /** Fewer markers, and on neither side a lower reserve per marker and the locked 1000. */
  predicate FairlyPaid(st: State, st': State, target: Asset, a: Asset, b: Asset) {
    var before, after := st.Issued(Marker(target)) + MIN_LIQUIDITY, st'.Issued(Marker(target)) + MIN_LIQUIDITY;
    && after < before
    && Reserve(st', a, target) * before >= Reserve(st, a, target) * after
    && Reserve(st', b, target) * before >= Reserve(st, b, target) * after
  }

  lemma FairShares(st: State, st': State, target: Asset, a: Asset, b: Asset, amounts: WithdrawAmounts)
    requires var x, y, k, supply := Reserve(st, a, target), Reserve(st, b, target), amounts.markers,
             st.Issued(Marker(target));
             && amounts.a < x && amounts.b < y && 0 < k <= supply
             && WithdrawShare(x, k, supply) == Ok(amounts.a) && WithdrawShare(y, k, supply) == Ok(amounts.b)
             && Reserve(st', a, target) == x - amounts.a && Reserve(st', b, target) == y - amounts.b
             && st'.Issued(Marker(target)) == supply - k
    ensures FairlyPaid(st, st', target, a, b)
  {
    var supply := st.Issued(Marker(target));
    var before, after := supply + MIN_LIQUIDITY, st'.Issued(Marker(target)) + MIN_LIQUIDITY;
    FairAfter(Reserve(st, a, target), amounts.markers, supply, Reserve(st', a, target), before, after);
    FairAfter(Reserve(st, b, target), amounts.markers, supply, Reserve(st', b, target), before, after);
  }

  lemma WithdrawPaysFairly(st: State, target: Asset, sender: Account, a: Asset, b: Asset, mb: Bounds, ab: Bounds,
                           bb: Bounds, amounts: WithdrawAmounts, st': State)
    requires Solvent(st) && !sender.PoolOf? && IsPair(a, b, target)
    requires ValidatedWithdraw(st, target, sender, a, b, mb, ab, bb) == Ok(amounts)
    requires ReservedWithdraw(st, target, sender, a, b, amounts) == Ok(st')
    ensures FairlyPaid(st, st', target, a, b)
  {
    ValidWithdraw(st, target, sender, a, b, mb, ab, bb);
    WithdrawKeepsPools(st, target, sender, a, b, mb, ab, bb);
    FairShares(st, st', target, a, b, amounts);
  }
}
