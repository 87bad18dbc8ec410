/** Executing an aggregated trade: the amounts sent to the sources, and the two-hop
    exchange through a transit account. A liquidity source is known by its contract
    only: it debits exactly the desired input and credits exactly its outcome. */
module ProxyExchange {
  import opened FixedPoint
  import opened Sums
  import opened Linspace
  import opened Optimiser
  import opened Aggregator
  import opened Swaps

  type Account = nat
  type Asset = nat

  // ----- the amounts sent to the sources

  /** The part of the desired input that goes to a source with the given share. */
  function Sent(amount: nat, share: nat): nat {
    share * amount / S
  }

  function Sends(amount: nat, distribution: seq<nat>): (parts: seq<nat>)
    ensures |parts| == |distribution|
  {
    seq(|distribution|, i requires 0 <= i < |distribution| => Sent(amount, distribution[i]))
  }

  function TotalSent(amount: nat, distribution: seq<nat>): nat {
    Sum(Sends(amount, distribution))
  }

  /** Shares that sum to at most one, and miss it by fewer base units than there are
      positive shares: what every quote returns. */
  predicate Apportioned(distribution: seq<nat>) {
    S - Used(distribution) < Sum(distribution) <= S
  }

  lemma SendsPrefix(amount: nat, distribution: seq<nat>)
    requires distribution != []
    ensures var i := |distribution| - 1;
            TotalSent(amount, distribution) == TotalSent(amount, distribution[..i]) + Sent(amount, distribution[i])
  {
    var i := |distribution| - 1;
    assert Sends(amount, distribution)[..i] == Sends(amount, distribution[..i]);
  }

  lemma SentScaled(amount: nat, share: nat)
    ensures share * amount - (if share > 0 then S - 1 else 0) <= Sent(amount, share) * S <= share * amount
  {
    FloorBounds(share * amount, S);
  }

  lemma {:induction false} SendsScaled(amount: nat, distribution: seq<nat>)
    ensures Sum(distribution) * amount - Used(distribution) * (S - 1) <= TotalSent(amount, distribution) * S
    ensures TotalSent(amount, distribution) * S <= Sum(distribution) * amount
  {
    if distribution != [] {
      var i := |distribution| - 1;
      SendsScaled(amount, distribution[..i]);
      SendsPrefix(amount, distribution);
      SentScaled(amount, distribution[i]);
      TimesSum(Sum(distribution[..i]), distribution[i], amount);
    }
  }

  /** The aggregator never sends more than was asked for. */
  lemma NeverOverspends(amount: nat, distribution: seq<nat>)
    requires Sum(distribution) <= S
    ensures TotalSent(amount, distribution) <= amount
  {
    SendsScaled(amount, distribution);
    MulMono(Sum(distribution), S, amount);
    CancelLe(TotalSent(amount, distribution), amount, S);
  }

  lemma DustArithmetic(amount: nat, total: int, d: int, m: int)
    requires S - m < d <= S
    requires d * amount - m * (S - 1) <= total * S
    ensures (amount - total) * S < m * (S + amount)
  {
    MulMono(S - m + 1, d, amount);
    var ma := m * amount;
    assert (S - m + 1) * amount == S * amount - ma + amount;
    assert m * (S + amount) == m * S + ma;
  }

  /** What is left over, times `S`, is below `m * (S + amount)` for `m` used sources. */
  lemma DustBound(amount: nat, distribution: seq<nat>)
    requires Apportioned(distribution)
    ensures (amount - TotalSent(amount, distribution)) * S < Used(distribution) * (S + amount)
  {
    SendsScaled(amount, distribution);
    DustArithmetic(amount, TotalSent(amount, distribution), Sum(distribution), Used(distribution));
  }

  lemma {:induction false} SharesUsed(parts: seq<nat>, s: nat)
    requires 0 < s <= S
    ensures Used(Shares(parts, s)) == Used(parts)
  {
    if parts != [] {
      var i := |parts| - 1;
      SharesUsed(parts[..i], s);
      SharesPrefix(parts, s);
      ShareLoss(parts[i], s);
      if parts[i] > 0 {
        MulMono(1, parts[i], S);
        CancelLt(0, Share(parts[i], s), s);
      }
    }
  }

  /** The shares of a general split are apportioned. */
  lemma GeneralSplitApportioned(parts: seq<nat>, s: nat)
    requires 0 < s <= S && Sum(parts) == s
    ensures Apportioned(Shares(parts, s))
  {
    SharesAlmostWhole(parts, s);
    SharesUsed(parts, s);
  }

  // ----- what is sent against what was sampled

  lemma SentExact(amount: nat, p: nat, n: nat, share: nat, sent: nat)
    requires share * n <= p * S && sent * S <= share * amount
    ensures sent * n <= p * amount
  {
    MulMono(sent * S, share * amount, n);
    MulMono(share * n, p * S, amount);
    Swap(sent, S, n);
    Swap(share, amount, n);
    Swap(p, S, amount);
    CancelLe(sent * n, p * amount, S);
  }

  lemma SentAbove(amount: nat, p: nat, n: nat, share: nat, sent: nat)
    requires p * S <= share * n + n && share * amount < sent * S + S
    ensures (sent * n) * S >= (p * amount) * S - n * amount - n * S + n
  {
    MulMono(p * S - n, share * n, amount);
    TimesDifference(p * S, n, amount);
    Swap(p, S, amount);
    Swap(share, n, amount);
    MulMono(share * amount + 1, sent * S + S, n);
    TimesSum(share * amount, 1, n);
    TimesSum(sent * S, S, n);
    Swap(sent, S, n);
  }

  lemma Gap(n: nat, point: int, sent: int, amount: nat, exact: int)
    requires n > 0 && exact <= n * amount
    requires point * n * S <= exact * (S + 1)
    requires (sent * n) * S >= exact * S - n * amount - n * S + n
    ensures (point - sent) * S < 2 * amount + S
  {
    var gap := (point - sent) * S;
    assert gap * n == point * n * S - (sent * n) * S;
    assert (2 * amount + S - 1) * n == 2 * (n * amount) + n * S - n;
    CancelLe(gap, 2 * amount + S - 1, n);
  }

  lemma SentNear(amount: nat, p: nat, n: nat, x: nat)
    requires p <= n && n > 0 && NearPart(x, amount, p, n)
    ensures Sent(amount, Share(p, n)) <= x
    ensures (x - Sent(amount, Share(p, n))) * S < 2 * amount + S
  {
    var share, sent := Share(p, n), Sent(amount, Share(p, n));
    FloorBounds(p * S, n);
    FloorBounds(share * amount, S);
    SentExact(amount, p, n, share, sent);
    assert p * amount == amount * p;
    CancelLt(sent, x + 1, n);
    SentAbove(amount, p, n, share, sent);
    MulMono(p, n, amount);
    Gap(n, x, sent, amount, amount * p);
  }

  /** The sample that the optimiser counted on for `p` parts is what the source answers to a
      request for at least what is sent to it for its share of the trade, and for less than
      `1 + 2 * amount / S` base units more. */
  lemma SentNearSampled(quotes: seq<Quote>, request: SwapAmount, n: nat, i: nat, p: nat)
    requires n < USIZE && i < |quotes| && 0 < p <= n && request.amount <= MAX
    ensures exists x: nat, y: nat ::
              && Answers(quotes[i], SwapAmount(request.variant, x, y), SampleData(quotes, request, n)[i][p - 1],
                         SampleFees(quotes, request, n)[i][p - 1])
              && Sent(request.amount, Share(p, n)) <= x
              && (x - Sent(request.amount, Share(p, n))) * S < 2 * request.amount + S
  {
    SamplesAsked(quotes, request, n);
    var sample, fee := SampleData(quotes, request, n)[i][p - 1], SampleFees(quotes, request, n)[i][p - 1];
    assert AskedFor(quotes[i], request, p - 1 + 1, n, sample, fee);
    var x: nat, y: nat :| NearPart(x, request.amount, p, n)
      && Answers(quotes[i], SwapAmount(request.variant, x, y), sample, fee);
    SentNear(request.amount, p, n, x);
  }

  // ----- executing a single exchange

  type Balances = map<(Account, Asset), nat>

  function Held(balances: Balances, account: Account, asset: Asset): nat {
    if (account, asset) in balances then balances[(account, asset)] else 0
  }

  /** `sender` pays `spent` of `input`, `receiver` gets `received` of `output`, and
      nothing else changes. */
  ghost predicate Moved(before: Balances, after: Balances, sender: Account, receiver: Account, input: Asset,
                        output: Asset, spent: nat, received: nat)
  {
    forall account: Account, asset: Asset ::
      Held(after, account, asset) == Held(before, account, asset)
                                     - (if account == sender && asset == input then spent else 0)
                                     + (if account == receiver && asset == output then received else 0)
  }

  /** A running fixed-point total: an overflow fails for good. */
  function Accumulate(total: Fx, x: nat): Fx {
    var sum :- total;
    var next :- FromBalance(x);
    Add(sum, next)
  }

  lemma SentBelow(amount: nat, share: nat)
    requires share <= S
    ensures Sent(amount, share) <= amount
  {
    SentScaled(amount, share);
    MulMono(share, S, amount);
    CancelLe(Sent(amount, share), amount, S);
  }

  lemma SentFits(amount: nat, share: nat)
    requires amount <= MAX && share <= S
    ensures Sent(amount, share) <= MAX
    ensures Mul(share, amount) == Val(Sent(amount, share))
  {
    SentBelow(amount, share);
    MulIs(share, amount, Sent(amount, share));
  }

  lemma ShareFits(amount: nat, distribution: seq<nat>, i: nat)
    requires amount <= MAX && i < |distribution| && Sum(distribution) <= S
    ensures distribution[i] <= S && Sent(amount, distribution[i]) <= MAX
    ensures Mul(distribution[i], amount) == Val(Sent(amount, distribution[i]))
  {
    PartBounded(distribution, i);
    SentFits(amount, distribution[i]);
  }

  lemma {:induction false} SentMonotone(amount: nat, distribution: seq<nat>, k: nat)
    requires k <= |distribution|
    ensures TotalSent(amount, distribution[..k]) <= TotalSent(amount, distribution)
    decreases |distribution|
  {
    if k < |distribution| {
      SendsPrefix(amount, distribution);
      var shorter := distribution[..|distribution| - 1];
      assert shorter[..k] == distribution[..k];
      SentMonotone(amount, shorter, k);
    } else {
      assert distribution[..k] == distribution;
    }
  }

  lemma SentNothing(amount: nat)
    ensures Sent(amount, 0) == 0
  {
  }

  lemma NextSend(amount: nat, distribution: seq<nat>, k: nat)
    requires k < |distribution|
    ensures TotalSent(amount, distribution[..k + 1]) ==
            TotalSent(amount, distribution[..k]) + Sent(amount, distribution[k])
    ensures distribution[k] == 0 ==> Sent(amount, distribution[k]) == 0
  {
    assert distribution[..k + 1][..k] == distribution[..k];
    SendsPrefix(amount, distribution[..k + 1]);
    SentNothing(amount);
  }

  lemma NextSent(amount: nat, distribution: seq<nat>, i: nat)
    requires amount <= MAX && i < |distribution| && Sum(distribution) <= S
    ensures TotalSent(amount, distribution[..i + 1]) ==
            TotalSent(amount, distribution[..i]) + Sent(amount, distribution[i])
    ensures TotalSent(amount, distribution[..i + 1]) <= TotalSent(amount, distribution)
    ensures distribution[i] <= S && Sent(amount, distribution[i]) <= MAX
    ensures Mul(distribution[i], amount) == Val(Sent(amount, distribution[i]))
    ensures distribution[i] == 0 ==> Sent(amount, distribution[i]) == 0
  {
    NextSend(amount, distribution, i);
    ShareFits(amount, distribution, i);
    SentMonotone(amount, distribution, i + 1);
  }

  /** A running fixed-point total of what the sources answered. */
  datatype Tally = Tally(balances: Balances, amount: Fx, fee: Fx)

  /** One exchange with a source, by its contract. */
  function ViaSource(balances: Balances, sender: Account, receiver: Account, input: Asset, output: Asset, desired: nat,
                     answer: Option<Outcome>): Result<Balances, ProxyError>
  {
    if answer.None? then Err(SourceFailed)
    else if Held(balances, sender, input) < desired then Err(InsufficientBalance)
    else
      var debited := balances[(sender, input) := Held(balances, sender, input) - desired];
      Ok(debited[(receiver, output) := Held(debited, receiver, output) + answer.value.amount])
  }

  /** The exchanges with the first `k` sources that have a positive share. */
  function ViaSources(balances: Balances, sender: Account, receiver: Account, input: Asset, output: Asset, amount: nat,
                      distribution: seq<nat>, answers: seq<Option<Outcome>>, k: nat): Result<Tally, ProxyError>
    requires k <= |distribution| == |answers|
  {
    if k == 0 then Ok(Tally(balances, Val(0), Val(0)))
    else
      var tally :- ViaSources(balances, sender, receiver, input, output, amount, distribution, answers, k - 1);
      if distribution[k - 1] == 0 then Ok(tally)
      else
        var answer := answers[k - 1];
        var next :- ViaSource(tally.balances, sender, receiver, input, output, Sent(amount, distribution[k - 1]),
                              answer);
        Ok(Tally(next, Accumulate(tally.amount, answer.value.amount), Accumulate(tally.fee, answer.value.fee)))
  }

  lemma {:induction false} FailureStays(balances: Balances, sender: Account, receiver: Account, input: Asset,
                                        output: Asset,
                                        amount: nat, distribution: seq<nat>, answers: seq<Option<Outcome>>, k: nat,
                                            n: nat)
    requires k <= n <= |distribution| == |answers|
    requires ViaSources(balances, sender, receiver, input, output, amount, distribution, answers, k).Err?
    ensures ViaSources(balances, sender, receiver, input, output, amount, distribution, answers, n) ==
            ViaSources(balances, sender, receiver, input, output, amount, distribution, answers, k)
  {
    if k < n { FailureStays(balances, sender, receiver, input, output, amount, distribution, answers, k, n - 1); }
  }

  /** A single exchange with a desired input, as a function of the balances before it. */
  function SingleDone(balances: Balances, sender: Account, receiver: Account, input: Asset, output: Asset, amount: nat,
                      quoted: Option<seq<nat>>, answers: seq<Option<Outcome>>): Result<(Balances, Outcome), ProxyError>
    requires quoted.Some? ==> |answers| == |quoted.value|
  {
    if amount > MAX then Err(CalculationError)
    else if quoted.None? then Err(SourceFailed)
    else
      var tally :- ViaSources(balances, sender, receiver, input, output, amount, quoted.value, answers, |answers|);
      if tally.amount.Fail? || tally.fee.Fail? || tally.amount.v < 0 || tally.fee.v < 0 then Err(CalculationError)
      else Ok((tally.balances, Outcome(tally.amount.v, tally.fee.v)))
  }

  /** What the sources in use answered, nothing for the others. */
  function AnsweredAmounts(distribution: seq<nat>, answers: seq<Option<Outcome>>): (amounts: seq<nat>)
    requires |distribution| == |answers|
    ensures |amounts| == |answers|
  {
    seq(|answers|, i requires 0 <= i < |answers| =>
        if distribution[i] > 0 && answers[i].Some? then answers[i].value.amount else 0)
  }

  function AnsweredFees(distribution: seq<nat>, answers: seq<Option<Outcome>>): (fees: seq<nat>)
    requires |distribution| == |answers|
    ensures |fees| == |answers|
  {
    seq(|answers|, i requires 0 <= i < |answers| =>
        if distribution[i] > 0 && answers[i].Some? then answers[i].value.fee else 0)
  }

  /** The first `k` sources answer, those of them that are in use. */
  predicate AllAnswer(distribution: seq<nat>, answers: seq<Option<Outcome>>, k: nat)
    requires k <= |distribution| == |answers|
  {
    forall i :: 0 <= i < k && distribution[i] > 0 ==> answers[i].Some?
  }

  lemma SumNext(s: seq<nat>, k: nat)
    requires k < |s|
    ensures Sum(s[..k + 1]) == Sum(s[..k]) + s[k]
  {
    assert s[..k + 1] == s[..k] + [s[k]];
    SumAppend(s[..k], s[k]);
  }

  lemma AccumulateFits(total: nat, x: nat)
    ensures Accumulate(Fit(total), x) == Fit(total + x)
  {
  }

  /** The totals of what the first `k` sources were sent and answered. */
  ghost predicate TallyOf(before: Balances, sender: Account, receiver: Account, input: Asset, output: Asset, sent: nat,
                          amounts: nat, fees: nat, tally: Tally) {
    && Held(tally.balances, sender, input) == Held(before, sender, input) - sent
    && Held(tally.balances, receiver, output) == Held(before, receiver, output) + amounts
    && tally.amount == Fit(amounts) && tally.fee == Fit(fees)
  }

  lemma TallyStep(before: Balances, tally: Tally, sender: Account, receiver: Account, input: Asset, output: Asset,
                  desired: nat, answer: Option<Outcome>, sent: nat, amounts: nat, fees: nat)
    requires input != output && TallyOf(before, sender, receiver, input, output, sent, amounts, fees, tally)
    ensures var next := ViaSource(tally.balances, sender, receiver, input, output, desired, answer);
            && (next.Ok? <==> answer.Some? && sent + desired <= Held(before, sender, input))
            && (next.Ok? ==> TallyOf(before, sender, receiver, input, output, sent + desired,
                                     amounts + answer.value.amount,
                                     fees + answer.value.fee,
                                     Tally(next.value, Accumulate(tally.amount, answer.value.amount),
                                           Accumulate(tally.fee, answer.value.fee))))
  {
    if answer.Some? {
      AccumulateFits(amounts, answer.value.amount);
      AccumulateFits(fees, answer.value.fee);
    }
  }

  /** The exchanges with the first `k` sources succeed exactly when all of them in use answer and
      the sender holds what they are sent; their totals are then those. */
  ghost predicate Totalled(balances: Balances, sender: Account, receiver: Account, input: Asset, output: Asset,
                           amount: nat, distribution: seq<nat>, answers: seq<Option<Outcome>>, k: nat, r: Result<Tally,
                               ProxyError>)
    requires k <= |distribution| == |answers|
  {
    && (r.Ok? <==> AllAnswer(distribution, answers, k)
                   && TotalSent(amount, distribution[..k]) <= Held(balances, sender, input))
    && (r.Ok? ==> TallyOf(balances, sender, receiver, input, output, TotalSent(amount, distribution[..k]),
                          Sum(AnsweredAmounts(distribution, answers)[..k]),
                          Sum(AnsweredFees(distribution, answers)[..k]), r.value))
  }

  lemma UnusedSource(balances: Balances, sender: Account, receiver: Account, input: Asset, output: Asset, amount: nat,
                     distribution: seq<nat>,
                     answers: seq<Option<Outcome>>, k: nat, r: Result<Tally, ProxyError>)
    requires k < |distribution| == |answers| && distribution[k] == 0
    requires Totalled(balances, sender, receiver, input, output, amount, distribution, answers, k, r)
    ensures Totalled(balances, sender, receiver, input, output, amount, distribution, answers, k + 1, r)
  {
    NextSend(amount, distribution, k);
    SumNext(AnsweredAmounts(distribution, answers), k);
    SumNext(AnsweredFees(distribution, answers), k);
  }

  lemma UsedSource(balances: Balances, sender: Account, receiver: Account, input: Asset, output: Asset, amount: nat,
                   distribution: seq<nat>, answers: seq<Option<Outcome>>, k: nat, tally: Tally,
                   next: Result<Balances, ProxyError>, r: Result<Tally, ProxyError>)
    requires input != output && k < |distribution| == |answers| && distribution[k] > 0
    requires Totalled(balances, sender, receiver, input, output, amount, distribution, answers, k, Ok(tally))
    requires next == ViaSource(tally.balances, sender, receiver, input, output, Sent(amount, distribution[k]),
                               answers[k])
    requires r.Ok? <==> next.Ok?
    requires next.Ok? ==> answers[k].Some?
    requires next.Ok? ==>
             r.value == Tally(next.value, Accumulate(tally.amount, answers[k].value.amount),
                              Accumulate(tally.fee, answers[k].value.fee))
    ensures Totalled(balances, sender, receiver, input, output, amount, distribution, answers, k + 1, r)
  {
    NextSend(amount, distribution, k);
    SumNext(AnsweredAmounts(distribution, answers), k);
    SumNext(AnsweredFees(distribution, answers), k);
    TallyStep(balances, tally, sender, receiver, input, output, Sent(amount, distribution[k]), answers[k],
              TotalSent(amount, distribution[..k]), Sum(AnsweredAmounts(distribution, answers)[..k]),
              Sum(AnsweredFees(distribution, answers)[..k]));
  }

  lemma FailedSource(balances: Balances, sender: Account, receiver: Account, input: Asset, output: Asset, amount: nat,
                     distribution: seq<nat>,
                     answers: seq<Option<Outcome>>, k: nat, r: Result<Tally, ProxyError>)
    requires k < |distribution| == |answers| && r.Err?
    requires Totalled(balances, sender, receiver, input, output, amount, distribution, answers, k, r)
    ensures Totalled(balances, sender, receiver, input, output, amount, distribution, answers, k + 1, r)
  {
    NextSend(amount, distribution, k);
  }

  lemma {:induction false} ViaSourcesExactly(balances: Balances, sender: Account, receiver: Account, input: Asset,
                                             output: Asset, amount: nat, distribution: seq<nat>,
                                             answers: seq<Option<Outcome>>, k: nat)
    requires input != output && k <= |distribution| == |answers|
    ensures Totalled(balances, sender, receiver, input, output, amount, distribution, answers, k,
                     ViaSources(balances, sender, receiver, input, output, amount, distribution, answers, k))
  {
    if k > 0 {
      ViaSourcesExactly(balances, sender, receiver, input, output, amount, distribution, answers, k - 1);
      var before := ViaSources(balances, sender, receiver, input, output, amount, distribution, answers, k - 1);
      var r := ViaSources(balances, sender, receiver, input, output, amount, distribution, answers, k);
      if before.Err? {
        FailedSource(balances, sender, receiver, input, output, amount, distribution, answers, k - 1, r);
      } else if distribution[k - 1] == 0 {
        UnusedSource(balances, sender, receiver, input, output, amount, distribution, answers, k - 1, r);
      } else {
        var next := ViaSource(before.value.balances, sender, receiver, input, output,
                              Sent(amount, distribution[k - 1]), answers[k - 1]);
        UsedSource(balances, sender, receiver, input, output, amount, distribution, answers, k - 1, before.value, next,
                   r);
      }
    }
  }

  /** A single exchange succeeds exactly when it was quoted, all sources in use answer, the sender
      holds what they are sent, and the totals fit; it then reports the totals of what the sources
      answered. */
  lemma SingleReports(balances: Balances, sender: Account, receiver: Account, input: Asset, output: Asset, amount: nat,
                      quoted: Option<seq<nat>>, answers: seq<Option<Outcome>>)
    requires input != output && (quoted.Some? ==> |answers| == |quoted.value|)
    ensures var r := SingleDone(balances, sender, receiver, input, output, amount, quoted, answers);
            && (r.Ok? <==> && amount <= MAX && quoted.Some? && AllAnswer(quoted.value, answers, |answers|)
                           && TotalSent(amount, quoted.value) <= Held(balances, sender, input)
                           && Sum(AnsweredAmounts(quoted.value, answers)) <= MAX
                           && Sum(AnsweredFees(quoted.value, answers)) <= MAX)
            && (r.Ok? ==> && r.value.1 == Outcome(Sum(AnsweredAmounts(quoted.value, answers)),
                                                  Sum(AnsweredFees(quoted.value, answers)))
                          && Held(r.value.0, receiver, output) == Held(balances, receiver, output) + r.value.1.amount)
  {
    if quoted.Some? {
      ViaSourcesExactly(balances, sender, receiver, input, output, amount, quoted.value, answers, |answers|);
      assert quoted.value[..|answers|] == quoted.value;
      assert AnsweredAmounts(quoted.value, answers)[..|answers|] == AnsweredAmounts(quoted.value, answers);
      assert AnsweredFees(quoted.value, answers)[..|answers|] == AnsweredFees(quoted.value, answers);
    }
  }

  class Wallets {
    var balances: Balances

    /** The contract of a liquidity source. */
    method ExchangeVia(sender: Account, receiver: Account, input: Asset, output: Asset, desired: nat,
                       answer: Option<Outcome>)
      returns (r: Result<Outcome, ProxyError>)
      requires input != output
      modifies this
      ensures r.Err? ==> balances == old(balances)
      ensures r == Err(InsufficientBalance) <==> answer.Some? && Held(old(balances), sender, input) < desired
      ensures r.Ok? ==> desired <= Held(old(balances), sender, input) && answer == Some(r.value)
      ensures r.Ok? ==> Moved(old(balances), balances, sender, receiver, input, output, desired, r.value.amount)
      ensures match ViaSource(old(balances), sender, receiver, input, output, desired, answer)
              case Ok(after) => r.Ok? && balances == after
              case Err(e) => r == Err(e)
    {
      if answer.None? { return Err(SourceFailed); }
      if Held(balances, sender, input) < desired { return Err(InsufficientBalance); }
      balances := balances[(sender, input) := Held(balances, sender, input) - desired];
      balances := balances[(receiver, output) := Held(balances, receiver, output) + answer.value.amount];
      r := Ok(answer.value);
    }

    /** Sends the desired input to the sources according to the quoted distribution,
        all of it or nothing. */
    method ExchangeSingle(sender: Account, receiver: Account, input: Asset, output: Asset, amount: nat,
                          quoted: Option<seq<nat>>, answers: seq<Option<Outcome>>)
      returns (r: Result<Outcome, ProxyError>)
      requires input != output
      requires quoted.Some? ==> Apportioned(quoted.value) && |answers| == |quoted.value|
      modifies this
      ensures r.Err? ==> balances == old(balances)
      ensures r == Err(InsufficientBalance) ==>
              quoted.Some? && Held(old(balances), sender, input) < TotalSent(amount, quoted.value)
      ensures r.Ok? ==> quoted.Some? && TotalSent(amount, quoted.value) <= Held(old(balances), sender, input)
      ensures r.Ok? ==> Moved(old(balances), balances, sender, receiver, input, output, TotalSent(amount, quoted.value),
                              r.value.amount)
      ensures r.Ok? ==> r.value.amount <= MAX && r.value.fee <= MAX && amount <= MAX
      ensures match SingleDone(old(balances), sender, receiver, input, output, amount, quoted, answers)
              case Ok((after, outcome)) => r == Ok(outcome) && balances == after
              case Err(e) => r == Err(e)
    {
      if amount > MAX { return Err(CalculationError); }
      if quoted.None? { return Err(SourceFailed); }
      var distribution := quoted.value;
      var before := balances;
      var total, fee := Val(0), Val(0);
      ghost var spent: nat, received: nat := 0, 0;
      for i := 0 to |distribution|
        invariant spent == TotalSent(amount, distribution[..i]) && spent <= Held(before, sender, input)
        invariant Moved(before, balances, sender, receiver, input, output, spent, received)
        invariant total.Val? ==> total.v == received
        invariant fee.Val? ==> fee.v >= 0
        invariant ViaSources(before, sender, receiver, input, output, amount, distribution, answers, i) ==
                  Ok(Tally(balances, total, fee))
      {
        NextSent(amount, distribution, i);
        if distribution[i] > 0 {
          var part := Mul(distribution[i], amount).v;
          var outcome := ExchangeVia(sender, receiver, input, output, part, answers[i]);
          if outcome.Err? {
            FailureStays(before, sender, receiver, input, output, amount, distribution, answers, i + 1, |answers|);
            balances := before;
            return Err(outcome.error);
          }
          spent, received := spent + part, received + outcome.value.amount;
          total := Accumulate(total, outcome.value.amount);
          fee := Accumulate(fee, outcome.value.fee);
        }
      }
      assert distribution[..|distribution|] == distribution;
      if total.Fail? || fee.Fail? {
        balances := before;
        return Err(CalculationError);
      }
      r := Ok(Outcome(total.v, fee.v));
    }
  }

  // ----- the two-hop exchange

  /** Everything that the quotes and the sources answer during a two-hop exchange. */
  datatype Hop = Hop(quoted: Option<seq<nat>>, answers: seq<Option<Outcome>>)

  predicate WellQuoted(hop: Hop) {
    hop.quoted.Some? ==> Apportioned(hop.quoted.value) && |hop.answers| == |hop.quoted.value|
  }

  /** What the sender puts in: the desired input, or the input quoted for the desired
      output. */
  function HopInput(request: SwapAmount, quotedInput: Option<nat>): Result<nat, ProxyError> {
    match request.variant
    case WithDesiredInput => Ok(request.amount)
    case WithDesiredOutput =>
      if quotedInput.None? then Err(SourceFailed)
      else if quotedInput.value > request.limit then Err(SlippageNotTolerated)
      else Ok(quotedInput.value)
  }

  /** What a two-hop exchange does to every balance: the sender pays `sent` of `from`, the
      receiver gets `received` of `to`, and the transit account keeps what of the `transited`
      amount of `base` is not `forwarded`. */
  ghost predicate MovedThrough(before: Balances, after: Balances, sender: Account, transit: Account, receiver: Account,
                               from: Asset, base: Asset, to: Asset, sent: nat, transited: nat, forwarded: nat,
                               received: nat)
  {
    forall account: Account, asset: Asset ::
      Held(after, account, asset) == Held(before, account, asset)
                                     - (if account == sender && asset == from then sent else 0)
                                     + (if account == transit && asset == base then transited - forwarded else 0)
                                     + (if account == receiver && asset == to then received else 0)
  }

  lemma TwoMoves(before: Balances, middle: Balances, after: Balances, sender: Account, transit: Account,
                 receiver: Account,
                 from: Asset, base: Asset, to: Asset, sent: nat, transited: nat, forwarded: nat, received: nat)
    requires Moved(before, middle, sender, transit, from, base, sent, transited)
    requires Moved(middle, after, transit, receiver, base, to, forwarded, received)
    ensures MovedThrough(before, after, sender, transit, receiver, from, base, to, sent, transited, forwarded, received)
  {
  }

  /** What a two-hop exchange moves: no more than the input is sent, and no more than the transited
      amount forwarded; no other account changes, and the transit account keeps only dust. */
  ghost predicate TwofoldMoved(before: Balances, after: Balances, sender: Account, transit: Account, receiver: Account,
                               from: Asset, base: Asset, to: Asset, input: nat, first: seq<nat>, second: seq<nat>,
                               transited: nat, received: nat)
  {
    var sent, forwarded := TotalSent(input, first), TotalSent(transited, second);
    && sent <= input && forwarded <= transited
    && MovedThrough(before, after, sender, transit, receiver, from, base, to, sent, transited, forwarded, received)
    && Held(before, transit, base) <= Held(after, transit, base)
    && (Held(after, transit, base) - Held(before, transit, base)) * S < Used(second) * (S + transited)
  }

  lemma TwofoldMoves(before: Balances, middle: Balances, after: Balances, sender: Account, transit: Account,
                     receiver: Account, from: Asset, base: Asset, to: Asset, input: nat, first: seq<nat>,
                     second: seq<nat>, transited: nat, received: nat)
    requires from != base && base != to && Apportioned(first) && Apportioned(second)
    requires Moved(before, middle, sender, transit, from, base, TotalSent(input, first), transited)
    requires Moved(middle, after, transit, receiver, base, to, TotalSent(transited, second), received)
    ensures TwofoldMoved(before, after, sender, transit, receiver, from, base, to, input, first, second, transited,
                         received)
  {
    NeverOverspends(input, first);
    NeverOverspends(transited, second);
    DustBound(transited, second);
    TwoMoves(before, middle, after, sender, transit, receiver, from, base, to, TotalSent(input, first), transited,
             TotalSent(transited, second), received);
    assert Held(after, transit, base) == Held(before, transit, base) + transited - TotalSent(transited, second);
  }

  /** Both hops of an exchange, as a function of the balances before them. */
  function HopsDone(balances: Balances, sender: Account, transit: Account, receiver: Account,
                    from: Asset, base: Asset, to: Asset, input: nat, first: Hop, second: Hop)
    : Result<(Balances, Outcome, Outcome), ProxyError>
    requires WellQuoted(first) && WellQuoted(second)
  {
    var (middle, one) :- SingleDone(balances, sender, transit, from, base, input, first.quoted, first.answers);
    var (after, two) :- SingleDone(middle, transit, receiver, base, to, one.amount, second.quoted, second.answers);
    Ok((after, one, two))
  }

  /** A two-hop exchange, as a function of the balances before it. */
  function TwofoldDone(balances: Balances, sender: Account, transit: Account, receiver: Account,
                       from: Asset, base: Asset, to: Asset,
                       request: SwapAmount, quotedInput: Option<nat>, first: Hop, second: Hop)
    : Result<(Balances, Outcome), ProxyError>
    requires WellQuoted(first) && WellQuoted(second)
  {
    var input :- HopInput(request, quotedInput);
    var (after, one, two) :- HopsDone(balances, sender, transit, receiver, from, base, to, input, first, second);
    if request.variant.WithDesiredInput? && two.amount < request.limit then Err(SlippageNotTolerated)
    else Ok((after, Outcome(if request.variant.WithDesiredInput? then two.amount else input, one.fee + two.fee)))
  }

  /** Both hops, or nothing. */
  method ExchangeHops(wallets: Wallets, sender: Account, transit: Account, receiver: Account,
                      from: Asset, base: Asset, to: Asset, input: nat, first: Hop, second: Hop)
    returns (r: Result<(Outcome, Outcome), ProxyError>)
    requires from != base && base != to
    requires WellQuoted(first) && WellQuoted(second)
    modifies wallets
    ensures match HopsDone(old(wallets.balances), sender, transit, receiver, from, base, to, input, first, second)
            case Ok((after, one, two)) => r == Ok((one, two)) && wallets.balances == after
            case Err(e) => r == Err(e)
    ensures r.Err? ==> wallets.balances == old(wallets.balances)
    ensures r == Err(InsufficientBalance) ==>
              first.quoted.Some? && Held(old(wallets.balances), sender, from) < TotalSent(input, first.quoted.value)
    ensures r.Ok? ==> first.quoted.Some? && second.quoted.Some?
    ensures r.Ok? ==>
              TwofoldMoved(old(wallets.balances), wallets.balances, sender, transit, receiver, from, base, to, input,
                           first.quoted.value, second.quoted.value, r.value.0.amount, r.value.1.amount)
  {
    var before := wallets.balances;
    var firstSwap := wallets.ExchangeSingle(sender, transit, from, base, input, first.quoted, first.answers);
    if firstSwap.Err? { return Err(firstSwap.error); }
    var transited := firstSwap.value.amount;
    ghost var middle := wallets.balances;
    if second.quoted.Some? { NeverOverspends(transited, second.quoted.value); }
    var secondSwap := wallets.ExchangeSingle(transit, receiver, base, to, transited, second.quoted, second.answers);
    if secondSwap.Err? {
      wallets.balances := before;
      return Err(secondSwap.error);
    }
    TwofoldMoves(before, middle, wallets.balances, sender, transit, receiver, from, base, to, input,
                 first.quoted.value, second.quoted.value, transited, secondSwap.value.amount);
    r := Ok((firstSwap.value, secondSwap.value));
  }

  method ExchangeTwofold(wallets: Wallets, sender: Account, transit: Account, receiver: Account,
                         from: Asset, base: Asset, to: Asset,
                         request: SwapAmount, quotedInput: Option<nat>, first: Hop, second: Hop)
    returns (r: Result<Outcome, ProxyError>, transited: nat, received: nat)
    requires from != base && base != to
    requires WellQuoted(first) && WellQuoted(second)
    modifies wallets
    ensures match TwofoldDone(old(wallets.balances), sender, transit, receiver, from, base, to, request, quotedInput,
                              first, second)
            case Ok((after, outcome)) => r == Ok(outcome) && wallets.balances == after
            case Err(e) => r == Err(e)
    // a failed exchange changes nothing
    ensures r.Err? ==> wallets.balances == old(wallets.balances)
    // the transit account is never overdrawn: only the sender can be short of funds
    ensures r == Err(InsufficientBalance) ==>
              first.quoted.Some? && HopInput(request, quotedInput).Ok?
              && Held(old(wallets.balances), sender, from) <
                    TotalSent(HopInput(request, quotedInput).value, first.quoted.value)
    // who paid and who got what, that nothing else changed, and that only dust is kept in transit
    ensures r.Ok? ==> first.quoted.Some? && second.quoted.Some? && HopInput(request, quotedInput).Ok?
    ensures r.Ok? ==>
              TwofoldMoved(old(wallets.balances), wallets.balances, sender, transit, receiver, from, base, to,
                           HopInput(request, quotedInput).value, first.quoted.value, second.quoted.value, transited,
                           received)
    // slippage: of what the receiver got, or of what the sender was ready to pay
    ensures r.Ok? && request.variant.WithDesiredInput? ==> r.value.amount == received >= request.limit
    ensures r.Ok? && request.variant.WithDesiredOutput? ==>
              r.value.amount == HopInput(request, quotedInput).value <= request.limit
  {
    transited, received := 0, 0;
    var before := wallets.balances;
    var input := HopInput(request, quotedInput);
    if input.Err? { return Err(input.error), 0, 0; }
    var hops := ExchangeHops(wallets, sender, transit, receiver, from, base, to, input.value, first, second);
    if hops.Err? { return Err(hops.error), 0, 0; }
    transited, received := hops.value.0.amount, hops.value.1.amount;
    if request.variant.WithDesiredInput? && received < request.limit {
      wallets.balances := before;
      return Err(SlippageNotTolerated), 0, 0;
    }
    var amount := if request.variant.WithDesiredInput? then received else input.value;
    r := Ok(Outcome(amount, hops.value.0.fee + hops.value.1.fee));
  }

  /** The hop was quoted, all its sources in use answer, and the totals fit. */
  predicate Answered(hop: Hop) {
    && hop.quoted.Some? && |hop.answers| == |hop.quoted.value| &&
          AllAnswer(hop.quoted.value, hop.answers, |hop.answers|)
    && Sum(AnsweredAmounts(hop.quoted.value, hop.answers)) <= MAX
    && Sum(AnsweredFees(hop.quoted.value, hop.answers)) <= MAX
  }

  /** What the sources of a hop answered in total. */
  function AnswerOf(hop: Hop): Outcome
    requires hop.quoted.Some? && |hop.answers| == |hop.quoted.value|
  {
    Outcome(Sum(AnsweredAmounts(hop.quoted.value, hop.answers)), Sum(AnsweredFees(hop.quoted.value, hop.answers)))
  }

  lemma HopReports(balances: Balances, sender: Account, receiver: Account, input: Asset, output: Asset, amount: nat,
                   hop: Hop)
    requires input != output && WellQuoted(hop)
    ensures var r := SingleDone(balances, sender, receiver, input, output, amount, hop.quoted, hop.answers);
            && (r.Ok? <==> && amount <= MAX && Answered(hop)
                           && TotalSent(amount, hop.quoted.value) <= Held(balances, sender, input))
            && (r.Ok? ==> && r.value.1 == AnswerOf(hop)
                          && Held(r.value.0, receiver, output) >= AnswerOf(hop).amount)
  {
    SingleReports(balances, sender, receiver, input, output, amount, hop.quoted, hop.answers);
  }

  /** A two-hop exchange succeeds exactly when its input is within its limit, both hops are answered,
      the sender holds what the first is sent, and the second delivers a minimal output; the transit
      account never lacks funds. It reports the fees of both hops, and what the second delivered or
      what the first was offered. */
  lemma TwofoldReports(balances: Balances, sender: Account, transit: Account, receiver: Account,
                       from: Asset, base: Asset, to: Asset,
                       request: SwapAmount, quotedInput: Option<nat>, first: Hop, second: Hop)
    requires from != base && base != to && WellQuoted(first) && WellQuoted(second)
    ensures var r := TwofoldDone(balances, sender, transit, receiver, from, base, to, request, quotedInput, first,
                                 second);
            var offered := HopInput(request, quotedInput);
            && (r.Ok? <==> && offered.Ok? && offered.value <= MAX && Answered(first) && Answered(second)
                           && TotalSent(offered.value, first.quoted.value) <= Held(balances, sender, from)
                           && (request.variant.WithDesiredInput? ==> AnswerOf(second).amount >= request.limit))
            && (r.Ok? ==> r.value.1 == Outcome(if request.variant.WithDesiredInput? then AnswerOf(second).amount
                                               else offered.value,
                                               AnswerOf(first).fee + AnswerOf(second).fee))
  {
    var offered := HopInput(request, quotedInput);
    if offered.Ok? {
      HopReports(balances, sender, transit, from, base, offered.value, first);
      var done := SingleDone(balances, sender, transit, from, base, offered.value, first.quoted, first.answers);
      if done.Ok? {
        var (middle, one) := done.value;
        HopReports(middle, transit, receiver, base, to, one.amount, second);
        if second.quoted.Some? { NeverOverspends(one.amount, second.quoted.value); }
      }
    }
  }

  /** The input that is offered: the desired one, or the one quoted within the limit. */
  lemma OfferedExactly(request: SwapAmount, quotedInput: Option<nat>)
    ensures var offered := HopInput(request, quotedInput);
            if request.variant.WithDesiredInput? then offered == Ok(request.amount)
            else offered.Ok? <==> quotedInput.Some? && quotedInput.value <= request.limit
    ensures request.variant.WithDesiredOutput? && HopInput(request, quotedInput).Ok? ==>
            quotedInput == Some(HopInput(request, quotedInput).value)
  {
  }

  /** For a desired output, what the second hop delivers is never compared with what was
      asked for: the exchange does the same whatever that is. */
  lemma DesiredOutputUntested(balances: Balances, sender: Account, transit: Account, receiver: Account,
                              from: Asset, base: Asset, to: Asset,
                              request: SwapAmount, amount: nat, quotedInput: Option<nat>, first: Hop, second: Hop)
    requires WellQuoted(first) && WellQuoted(second) && request.variant.WithDesiredOutput?
    ensures TwofoldDone(balances, sender, transit, receiver, from, base, to, request, quotedInput, first, second) ==
            TwofoldDone(balances, sender, transit, receiver, from, base, to, request.(amount := amount), quotedInput,
                        first, second)
  {
    assert HopInput(request, quotedInput) == HopInput(request.(amount := amount), quotedInput);
  }

  lemma LoneSource()
    ensures Apportioned([S])
  {
    assert [S][..0] == [];
  }

  /** A lone source on each hop: of 10 that were asked for, 9 arrive. */
  lemma DesiredOutputMissed()
    ensures var balances: Balances := map[(0, 0) := 10];
            var request := SwapAmount(WithDesiredOutput, 10, 10);
            var first, second := Hop(Some([S]), [Some(Outcome(10, 0))]), Hop(Some([S]), [Some(Outcome(9, 0))]);
            && WellQuoted(first) && WellQuoted(second)
            && var done := TwofoldDone(balances, 0, 1, 2, 0, 1, 2, request, Some(10), first, second);
            && done.Ok? && done.value.1 == Outcome(10, 0)
            && Held(done.value.0, 2, 2) == 9 < request.amount
  {
    var balances: Balances := map[(0, 0) := 10];
    var one, two := Some(Outcome(10, 0)), Some(Outcome(9, 0));
    LoneSource();
    assert Sent(10, S) == 10;
    assert ViaSources(balances, 0, 1, 0, 1, 10, [S], [one], 0) == Ok(Tally(balances, Val(0), Val(0)));
    var middle := ViaSource(balances, 0, 1, 0, 1, 10, one).value;
    assert SingleDone(balances, 0, 1, 0, 1, 10, Some([S]), [one]) == Ok((middle, Outcome(10, 0)));
    assert ViaSources(middle, 1, 2, 1, 2, 10, [S], [two], 0) == Ok(Tally(middle, Val(0), Val(0)));
  }
}
