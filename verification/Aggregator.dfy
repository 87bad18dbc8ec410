/** The source-agnostic part of the liquidity proxy: sampling the sources, turning
    the optimiser's shares back into parts, fees and amounts. */
module Aggregator {
  import opened FixedPoint
  import opened Sums
  import opened Linspace
  import opened Optimiser
  import opened Swaps

  // ----- sampling

  /** A balance that does not fit becomes the largest number. */
  function Saturate(b: nat): (r: Fixed)
    ensures 0 <= r <= b && (r == b || (r == MAX && b > MAX))
  {
    if b <= MAX then b else MAX
  }

  /** One sample: amount and fee, or the worst amount when the source cannot answer. */
  function SampleAt(quote: Quote, variant: Variant, x: Fixed, y: Fixed): (Fixed, Fixed) {
    var worst := if variant.WithDesiredInput? then (0, 0) else (MAX, 0);
    if x < 0 || y < 0 then worst
    else match quote(SwapAmount(variant, x, y))
      case None => worst
      case Some(outcome) =>
        if outcome.amount <= MAX && outcome.fee <= MAX then (outcome.amount, outcome.fee) else worst
  }

  function Samplings(amount: Fixed, n: nat): (points: seq<Fixed>)
    requires amount >= 0 && n < USIZE
    ensures |points| == n
    ensures n > 0 ==> points[n - 1] == amount
    ensures Rising(points) && Within(points, 0, amount)
  {
    PointsShape(0, amount, n, Right);
    Points(0, amount, n, Right)
  }

  function Sample(quote: Quote, request: SwapAmount, n: nat): (row: seq<(Fixed, Fixed)>)
    requires n < USIZE
    ensures |row| == n
  {
    var amounts := Samplings(Saturate(request.amount), n);
    var limits := Samplings(Saturate(request.limit), n);
    seq(n, k requires 0 <= k < n => SampleAt(quote, request.variant, amounts[k], limits[k]))
  }

  function Firsts(row: seq<(Fixed, Fixed)>): seq<Fixed> {
    seq(|row|, k requires 0 <= k < |row| => row[k].0)
  }

  function Seconds(row: seq<(Fixed, Fixed)>): seq<Fixed> {
    seq(|row|, k requires 0 <= k < |row| => row[k].1)
  }

  function SampleData(quotes: seq<Quote>, request: SwapAmount, n: nat): (data: Samples)
    requires n < USIZE
    ensures |data| == |quotes| && forall i :: 0 <= i < |data| ==> |data[i]| == n
    ensures NonNegative(data)
  {
    seq(|quotes|, i requires 0 <= i < |quotes| => Firsts(Sample(quotes[i], request, n)))
  }

  function SampleFees(quotes: seq<Quote>, request: SwapAmount, n: nat): (fees: Samples)
    requires n < USIZE
    ensures |fees| == |quotes| && forall i :: 0 <= i < |fees| ==> |fees[i]| == n
    ensures NonNegative(fees)
  {
    seq(|quotes|, i requires 0 <= i < |quotes| => Seconds(Sample(quotes[i], request, n)))
  }

  // ----- what the sources are asked

  /** The sample and its fee are what the source answers to the request, or the worst amount
      without a fee if it has no answer that fits. */
  predicate Answers(quote: Quote, request: SwapAmount, sample: Fixed, fee: Fixed) {
    match quote(request)
    case Some(outcome) =>
      if outcome.amount <= MAX && outcome.fee <= MAX then sample == outcome.amount && fee == outcome.fee
      else sample == (if request.variant.WithDesiredInput? then 0 else MAX) && fee == 0
    case None => sample == (if request.variant.WithDesiredInput? then 0 else MAX) && fee == 0
  }

  /** The source was asked for about `i` of `n` parts of the request, and of its limit. */
  ghost predicate AskedFor(quote: Quote, request: SwapAmount, i: nat, n: nat, sample: Fixed, fee: Fixed) {
    exists x: nat, y: nat ::
      && NearPart(x, Saturate(request.amount), i, n) && NearPart(y, Saturate(request.limit), i, n)
      && Answers(quote, SwapAmount(request.variant, x, y), sample, fee)
  }

  /** Every sample of every source was asked for in proportion. */
  ghost predicate AskedInProportion(quotes: seq<Quote>, request: SwapAmount, n: nat, data: Samples, fees: Samples) {
    && |data| == |fees| == |quotes|
    && (forall i :: 0 <= i < |quotes| ==> |data[i]| == |fees[i]| == n)
    && forall i, k :: 0 <= i < |quotes| && 0 <= k < n ==>
         AskedFor(quotes[i], request, k + 1, n, data[i][k], fees[i][k])
  }

  /** Each source answers for itself: what it is asked is the amount in proportion, with the
      limit in proportion. */
  lemma SamplesAsked(quotes: seq<Quote>, request: SwapAmount, n: nat)
    requires n < USIZE
    ensures AskedInProportion(quotes, request, n, SampleData(quotes, request, n), SampleFees(quotes, request, n))
  {
    var amount, limit := Saturate(request.amount), Saturate(request.limit);
    forall i, k | 0 <= i < |quotes| && 0 <= k < n
      ensures AskedFor(quotes[i], request, k + 1, n, SampleData(quotes, request, n)[i][k],
                       SampleFees(quotes, request, n)[i][k])
    {
      PointsEven(0, amount, n, Right, k);
      PointsEven(0, limit, n, Right, k);
      var x: nat, y: nat := Samplings(amount, n)[k], Samplings(limit, n)[k];
      assert Sample(quotes[i], request, n)[k] == SampleAt(quotes[i], request.variant, x, y);
      assert Answers(quotes[i], SwapAmount(request.variant, x, y), SampleData(quotes, request, n)[i][k],
                     SampleFees(quotes, request, n)[i][k]);
    }
  }

  // ----- from shares back to parts

  /** The nearest integer, halves away from zero. */
  function RoundToInt(v: Fixed): int {
    if v >= 0 then (2 * v + S) / (2 * S) else -((S - 2 * v) / (2 * S))
  }

  /** The fee of the sample that a share stands for. */
  function FeeAt(fees: seq<Fixed>, share: int, n: nat): Fx {
    var parts :- Fit(share * n);
    var index := RoundToInt(parts) - 1;
    Val(if 0 <= index < |fees| then fees[index] else 0)
  }

  /** Folding the fees of all sources: a share whose product overflows is skipped, a
      sum that overflows fails for good. */
  function TotalFee(fees: Samples, shares: seq<int>, n: nat): Fx
    requires |shares| <= |fees|
  {
    if shares == [] then Val(0)
    else
      var i := |shares| - 1;
      var total :- TotalFee(fees, shares[..i], n);
      match FeeAt(fees[i], shares[i], n)
      case Fail => Val(total)
      case Val(fee) => Add(total, fee)
  }

  /** Multiplying a share by the number of parts and rounding gives back the parts
      exactly when the fraction lost to the floor is at most half a base unit. */
  lemma RoundTripExactly(p: nat, s: nat)
    requires p <= s && 0 < s && s * S <= MAX
    ensures Fit(Share(p, s) * s).Val?
    ensures RoundToInt(Share(p, s) * s) == p <==> 2 * ((p * S) % s) <= S
  {
    FloorBounds(p * S, s);
    var v, lost := Share(p, s) * s, (p * S) % s;
    assert v == p * S - lost;
    MulMono(p, s, S);
    assert v >= 0 by { MulMono(0, Share(p, s), s); }
    FloorBounds(2 * v + S, 2 * S);
  }

  lemma RoundTrip(p: nat, s: nat)
    requires p <= s && 0 < s && 2 * s <= S
    ensures s * S <= MAX
    ensures Fit(Share(p, s) * s).Val? && RoundToInt(Share(p, s) * s) == p
  {
    RoundTripExactly(p, s);
    assert (p * S) % s < s;
  }

  lemma {:induction false} PartBounded(parts: seq<nat>, i: nat)
    requires i < |parts|
    ensures parts[i] <= Sum(parts)
  {
    if i < |parts| - 1 { PartBounded(parts[..|parts| - 1], i); }
  }

  lemma ChosenFee(fees: Samples, i: nat, p: nat, s: nat)
    requires i < |fees| && p <= |fees[i]| && p <= s && 0 < s && 2 * s <= S
    ensures FeeAt(fees[i], Share(p, s), s) == Val(Gain(fees, i, p))
  {
    RoundTrip(p, s);
  }

  lemma TotalFeeStep(fees: Samples, shares: seq<int>, n: nat, total: Fx, fee: Fixed)
    requires 0 < |shares| <= |fees|
    requires total == TotalFee(fees, shares[..|shares| - 1], n)
    requires FeeAt(fees[|shares| - 1], shares[|shares| - 1], n) == Val(fee)
    ensures TotalFee(fees, shares, n) == if total.Fail? then Fail else Add(total.v, fee)
  {
  }

  lemma SharesPrefix(parts: seq<nat>, s: nat)
    requires s > 0 && parts != []
    ensures var i := |parts| - 1;
            Shares(parts, s)[..i] == Shares(parts[..i], s) && Shares(parts, s)[i] == Share(parts[i], s)
  {
  }

  /** The rounded shares identify the chosen samples without loss: the folded fee is
      the sum of the fees at the distributed part counts, whenever that sum fits. */
  lemma {:induction false} FeesLossless(fees: Samples, parts: seq<nat>, s: nat, j: nat)
    requires 0 < s && 2 * s <= S && NonNegative(fees) && j <= s
    requires IsSplit(fees, parts, |parts|, j)
    ensures TotalFee(fees, Shares(parts, s), s) == Fit(Value(fees, parts))
    ensures Value(fees, parts) >= 0
  {
    NonNegativeValue(fees, parts, |parts|, j);
    if parts != [] {
      var i := |parts| - 1;
      SplitPrefix(fees, parts, |parts|, j);
      FeesLossless(fees, parts[..i], s, j - parts[i]);
      SharesPrefix(parts, s);
      ChosenFee(fees, i, parts[i], s);
      TotalFeeStep(fees, Shares(parts, s), s, Fit(Value(fees, parts[..i])), Gain(fees, i, parts[i]));
    }
  }

  // ----- the shares of a split add up to one, almost

  function Used(parts: seq<nat>): nat {
    if parts == [] then 0
    else Used(parts[..|parts| - 1]) + if parts[|parts| - 1] > 0 then 1 else 0
  }

  lemma ShareLoss(p: nat, s: nat)
    requires s > 0
    ensures p * S - (if p > 0 then s - 1 else 0) <= Share(p, s) * s <= p * S
  {
    FloorBounds(p * S, s);
  }

  lemma {:induction false} SharesSum(parts: seq<nat>, s: nat)
    requires s > 0
    ensures Sum(parts) * S - Used(parts) * (s - 1) <= Sum(Shares(parts, s)) * s <= Sum(parts) * S
  {
    if parts != [] {
      var i := |parts| - 1;
      SharesSum(parts[..i], s);
      SharesPrefix(parts, s);
      ShareLoss(parts[i], s);
      TimesSum(Sum(Shares(parts[..i], s)), Share(parts[i], s), s);
      TimesSum(Used(parts[..i]), 1, s - 1);
    }
  }

  lemma {:induction false} SomeUsed(parts: seq<nat>)
    ensures Sum(parts) > 0 ==> Used(parts) > 0
  {
    if parts != [] { SomeUsed(parts[..|parts| - 1]); }
  }

  /** The shares of a full split sum to at most one, and miss it by fewer base units
      than there are sources in use. */
  lemma SharesAlmostWhole(parts: seq<nat>, s: nat)
    requires s > 0 && Sum(parts) == s
    ensures S - Used(parts) < Sum(Shares(parts, s)) <= S
  {
    SharesSum(parts, s);
    SomeUsed(parts);
    var total, m: int := Sum(Shares(parts, s)), Used(parts);
    CancelLe(total, S, s);
    TimesSum(S, -m, s);
    TimesSum(s, -1, m);
    CancelLt(S - m, total, s);
  }

  // ----- the general split

  datatype Aggregated = Aggregated(distribution: seq<Fixed>, amount: nat, fee: nat)

  /** Some split of all `n` parts has the samples that sum to the best amount. For an exact
      output no other split is cheaper; for an exact input none yields more, exactly when no
      split overflows. */
  ghost predicate Best(quotes: seq<Quote>, request: SwapAmount, n: nat, parts: seq<nat>, best: int)
    requires n < USIZE
  {
    var data := SampleData(quotes, request, n);
    Selects(data, parts, |quotes|, n, best) && Extremal(data, request.variant.WithDesiredOutput?, |quotes|, n, best)
  }

  /** What an accepted general split promises: the quoted amount is the best one of a split
      whose fees sum to the quoted fee, and whose shares are the distribution. */
  ghost predicate Chosen(quotes: seq<Quote>, request: SwapAmount, n: nat, parts: seq<nat>, quoted: Aggregated)
    requires n < USIZE
  {
    && n > 0
    && Best(quotes, request, n, parts, quoted.amount)
    && quoted.distribution == Shares(parts, n)
    && (2 * n <= S ==> Selects(SampleFees(quotes, request, n), parts, |quotes|, n, quoted.fee))
  }

  /** The best amount is nothing, or at least the largest number. */
  ghost predicate NoUsableBest(quotes: seq<Quote>, request: SwapAmount, n: nat)
    requires n < USIZE
  {
    exists parts: seq<nat>, best: int :: Best(quotes, request, n, parts, best) && (best == 0 || best >= MAX)
  }

  /** The fees of the best split sum to more than the largest number. */
  ghost predicate FeesOverflow(quotes: seq<Quote>, request: SwapAmount, n: nat)
    requires n < USIZE
  {
    var fees := SampleFees(quotes, request, n);
    exists parts: seq<nat>, best: int ::
      Best(quotes, request, n, parts, best) && 0 < best < MAX
      && exists fee: int :: fee > MAX && Selects(fees, parts, |quotes|, n, fee)
  }

  /** Buying an exact output is refused only when every split costs at least the largest
      number, or some split costs nothing. */
  ghost predicate NothingToPay(quotes: seq<Quote>, request: SwapAmount, n: nat)
    requires n < USIZE
  {
    var data := SampleData(quotes, request, n);
    AtLeast(data, |quotes|, n, MAX) || exists parts: seq<nat> :: Selects(data, parts, |quotes|, n, 0)
  }

  lemma BestFound(quotes: seq<Quote>, request: SwapAmount, n: nat, parts: seq<nat>, best: int)
    requires n < USIZE && Selects(SampleData(quotes, request, n), parts, |quotes|, n, best)
    requires Extremal(SampleData(quotes, request, n), request.variant.WithDesiredOutput?, |quotes|, n, best)
    ensures Best(quotes, request, n, parts, best) && best >= 0
  {
    NonNegativeValue(SampleData(quotes, request, n), parts, |quotes|, n);
  }

  /** The folded fee of the distributed shares is the sum of the chosen fees. */
  lemma ChosenFees(fees: Samples, parts: seq<nat>, n: nat)
    requires 0 < n && 2 * n <= S && NonNegative(fees)
    requires IsSplit(fees, parts, |fees|, n)
    ensures TotalFee(fees, Shares(parts, n), n).Val? ==>
            Selects(fees, parts, |fees|, n, TotalFee(fees, Shares(parts, n), n).v)
    ensures TotalFee(fees, Shares(parts, n), n).Fail? ==>
            Selects(fees, parts, |fees|, n, Value(fees, parts)) && Value(fees, parts) > MAX
    ensures Value(fees, parts) >= 0
  {
    FeesLossless(fees, parts, n, n);
  }

  /** Samples on which the maximum is missed do come from sources, and the amount that is
      found instead passes the test of an accepted split. */
  lemma SourcesMissMaximum(much: Quote, little: Quote, request: SwapAmount)
    requires request.variant.WithDesiredInput?
    requires forall r: SwapAmount :: much(r) == Some(Outcome(MAX - 1, 0)) && little(r) == Some(Outcome(2, 0))
    ensures var data := SampleData([much, little], request, 2);
            && Cell(data, false, 1, 2).0 == MAX - 1 && 0 < MAX - 1 < MAX
            && Selects(data, [1, 1], 2, 2, MAX + 1)
  {
    var data := SampleData([much, little], request, 2);
    assert Firsts(Sample(much, request, 2)) == [MAX - 1, MAX - 1];
    assert Firsts(Sample(little, request, 2)) == [2, 2];
    assert data[0] == [MAX - 1, MAX - 1] && data[1] == [2, 2];
    assert data == [[MAX - 1, MAX - 1], [2, 2]];
    MaximumMissed();
  }

  method GenericSplit(quotes: seq<Quote>, request: SwapAmount, n: nat) returns (r: Result<Aggregated, ProxyError>)
    requires n < USIZE && quotes != []
    ensures AskedInProportion(quotes, request, n, SampleData(quotes, request, n), SampleFees(quotes, request, n))
    ensures r.Ok? ==> 0 < r.value.amount < MAX
    ensures r.Ok? ==> exists parts: seq<nat> :: Chosen(quotes, request, n, parts, r.value)
    ensures r.Err? ==> r.error == AggregationError || r.error == CalculationError
    ensures r == Err(AggregationError) && n > 0 && request.variant.WithDesiredOutput? ==>
            NothingToPay(quotes, request, n)
    ensures r == Err(AggregationError) && n > 0 ==> NoUsableBest(quotes, request, n)
    ensures r == Err(CalculationError) ==> n > 0 && (2 * n <= S ==> FeesOverflow(quotes, request, n))
  {
    var data, fees := SampleData(quotes, request, n), SampleFees(quotes, request, n);
    SamplesAsked(quotes, request, n);
    var inversed := request.variant.WithDesiredOutput?;
    var distribution, best := FindDistribution(data, inversed);
    ghost var parts := if n == 0 then [] else Parts(data, inversed, |data| - 1, n);
    if n > 0 { BestFound(quotes, request, n, parts, best); }
    if !(0 < best < MAX) {
      return Err(AggregationError);
    }
    var fee := TotalFee(fees, distribution, n);
    if 2 * n <= S {
      ChosenFees(fees, parts, n);
    }
    if fee.Fail? || fee.v < 0 {
      return Err(CalculationError);
    }
    r := Ok(Aggregated(distribution, best, fee.v));
    assert Chosen(quotes, request, n, parts, r.value);
  }
}
