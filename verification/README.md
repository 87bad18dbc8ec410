# Verified model of the Polkaswap exchange core

A Dafny 4.11 model of the parts of the Polkaswap node that decide and move amounts, with
proofs of what they promise. `dafny verify dfyconfig.toml` checks all of it.

Amounts are integers in base units, `S = 10^18` of them to one whole. `FixedPoint` is the
checked arithmetic that everything rests on: products, quotients and square roots are
rounded down, and a result that leaves the range of a signed 128-bit integer is a failure
that spreads to whatever uses it. Plain `+` and `-` on unsigned 128-bit balances wrap, as in
a release build without overflow checks.

**Aggregation.** `Optimiser` is the dynamic program that splits a trade into equal parts and
hands them to liquidity sources, over two tables filled in place (`FillTables`) and walked
backwards (`BackTrack`). `Linspace` gives the points at which `Aggregator` samples the
sources; `Aggregator` turns the optimiser's shares back into part counts and fees.
`FastSplit` divides a trade between a bonding curve and a pool. `Proxy` chooses between the
ways of quoting, and `ProxyExchange` executes a quoted distribution, in one hop or in two
hops through a transit account. A liquidity source is known by its answers, and by a
contract: it debits exactly the desired input and credits exactly its outcome.

**Constant-product pools.** `XykMath` holds the formulas, `Ledger` the balances, issuances,
registered technical accounts and the reserves cache. `XykPool` gives every operation as a
function of the ledger state (a validation that determines all amounts, then transfers,
mints or burns and a refresh of the cache); `XykActions` are the operations as the chain
runs them, with action objects that fill in their own fields, storage that is updated in
place and transactions that are rolled back, each proved equal to its function.
`PoolSteps` proves what each operation keeps and `PoolRuns` what holds along every run of
initialisations, deposits, withdrawals, swaps and transfers.

**Bonding curve.** `BondingCurve` is the price of a quantity (a closed-form integral) and the
quantity for a price (a square root).

**Concrete runs.** `Examples` shows cases on both sides of the conditions.

**Permissions.** `Permissions` is the store of owners, modes and sorted vectors of
permissions, from its genesis on, with the search by bisection behind every check.

## Assumptions

- There is one exchange, and its base asset is the one all pairs share.
- No one signs for a pool account. Anyone may send to one, and a swap may deliver to one: the
  pools stay solvent and whatever passes validation completes all the same. What such a
  payment can do to the pool that is paid past its own operations is stated exactly: it makes
  the cache entry stale (`PoolRuns.RunAgreesExactly`), and it leaves the pool half empty if
  it was empty (`PoolRuns.RunWholeExactly`), after which deposits into it and swaps with it
  are refused (`PoolRuns.HalfEmptyRefuses`, `Examples.SwapBreaksOtherPool`).
- The existential deposit is zero and there are no locks, so a balance is what can be spent.
- Accounts of a pool, its fee account and its marker asset are derived injectively from the
  target asset, the one that is not the base asset.

## Where the code and what is said about it differ

- The comment on the optimiser speaks of monotonous samples
  (`pallets/liquidity-proxy/src/algo.rs:39`). They are not needed. Maximising does need that
  no split overflows: `Optimiser.MaximumExactly` is an equivalence, `Optimiser.MaximumMissed`
  an input on the other side of it, and `Optimiser.PeaksSuffice` a condition on the largest
  sample of every source.
- A deposit into an empty pool is guarded so that the root of the two amounts should reach
  1000, but the guard compares the root with what it lacks, so that roots from 500 on pass,
  and the subtraction after it wraps (`pallets/pool-xyk/src/action_deposit_liquidity.rs:301-319`).
  The model follows the code, and `PoolRuns.FirstDepositBackedExactly` says that such a
  deposit is backed exactly when the root reaches 1000.
- Comments call the amounts that move the secondary price to the primary one always positive
  (`pallets/liquidity-proxy/src/lib.rs:850`, `:894`, `:972`, `:1024`). That is so in the last
  of the four branches only (`FastSplit.SellingOutputPositive`). In the others rounding can
  make them zero or negative (`FastSplit.BuyingInputCanFail`, `FastSplit.BuyingOutputCanFail`,
  `FastSplit.SellingInputCanFail`), and the exact conditions are stated beside; the clamping
  after them is what keeps the fractions in range.
- A desired output is what leaves the pool, and a minimal output is compared with it, before
  a fee on the output is taken. `PoolSteps.SwapRespectsRequest` says exactly when the receiver
  still gets the one or the other; `Examples.MinimumMissed` and `Examples.OutputMissed` are
  runs in which less arrives.
- A two-hop exchange for a desired output never compares what the second hop delivers with
  what was desired (`pallets/liquidity-proxy/src/lib.rs:323-356`):
  `ProxyExchange.DesiredOutputUntested` and `ProxyExchange.DesiredOutputMissed`.
- The fast split routes to the secondary market what brings its price to the primary one, or
  the whole trade (`FastSplit.SecondaryReachesPrice` and the three lemmas after it). A quotient
  of that amount and a very small trade overflows, though, and counts as nothing
  (`pallets/liquidity-proxy/src/lib.rs:851-853`): `FastSplit.RoutedExactly` says exactly when,
  and `FastSplit.SmallTradesMiss` is such a trade.
- The formula for the markers of a deposit is that of the proportional share, but its inner
  floor can push them above it: `XykMath.MintedWithinShareExactly` says exactly when it does,
  and `XykMath.MarkersCanExceed` is such a deposit.

## Model

| member | source | states |
|---|---|---|
| `FixedPoint.MultiplyAndSqrtBelow` | common/src/fixed_wrapper.rs:57-73 | the product of the two floored roots never exceeds the geometric mean: its square is at most the exact product |
| `Linspace.PointValue` | common/src/utils.rs:111-123 | for every number of points and either direction the checked calculation of an inner point succeeds, so `unwrap` never fails; the step taken is between none and all of the distance |
| `Linspace.PointNotBelowExact` | common/src/utils.rs:111-123 | an inner point is never below the floor of the exact fraction of the way, nor above the far end |
| `Linspace.PointsShape` | common/src/utils.rs:79-107 | exactly `n` points, never falling, all within the interval, reaching the endpoints that the mode asks for |
| `Linspace.PointsEven` | common/src/utils.rs:79-123 | in every mode the points are evenly spaced: each has gone at least the floor of its part of the way, and at most one in `S` more than that part |
| `Aggregator.SamplesAsked` | pallets/liquidity-proxy/src/lib.rs:178-245 | each sample of each source, with its fee, is what that source answers to a request for the amount in proportion, with the limit in proportion: both between the floor of the exact part and that part and one in `S` of it, and all of either for the last sample; or the worst amount without a fee if it has no answer that fits |
| `Optimiser.Reconstruction` | pallets/liquidity-proxy/src/algo.rs:89-106 | back-tracking from any cell hands out exactly its parts, and the samples at those counts sum to exactly its amount, including when overflowing candidates were skipped |
| `Optimiser.MinimumOptimal` | pallets/liquidity-proxy/src/algo.rs:63-87 | minimising, no split of the same parts is cheaper, whether or not its own sum overflows |
| `Optimiser.MaximumExactly` | pallets/liquidity-proxy/src/algo.rs:63-87 | maximising, no split yields more than the returned amount if and only if no split overflows |
| `Optimiser.PeaksSuffice` | pallets/liquidity-proxy/src/algo.rs:69-77 | no split overflows, and the maximum is not missed, if the largest samples of all sources sum to a representable number |
| `Optimiser.MaximumMissed` | pallets/liquidity-proxy/src/algo.rs:69-77 | concrete samples on which a skipped overflow loses the maximum |
| `Optimiser.FindDistribution` | pallets/liquidity-proxy/src/algo.rs:48-107 | the tables and the walk return the shares of a split of all parts whose samples sum to the returned amount, which is extremal; nothing for degenerate samples |
| `Optimiser.FillTables` | pallets/liquidity-proxy/src/algo.rs:59-87 | the three nested loops leave in both tables, in every cell, what the recurrence defines |
| `Optimiser.BackTrack` | pallets/liquidity-proxy/src/algo.rs:89-103 | the walk over `foreign` returns the shares of the reconstructed split, zeros for the sources it stops before |
| `Optimiser.SharePartIsShare` | pallets/liquidity-proxy/src/algo.rs:93-101 | the checked calculation of a share never fails, and is the floor of `p * S / s`, at most one |
| `Aggregator.RoundTripExactly` | pallets/liquidity-proxy/src/lib.rs:785-791 | multiplying a share by the number of parts and rounding gives back the parts if and only if the floor dropped at most half a base unit |
| `Aggregator.RoundTrip` | pallets/liquidity-proxy/src/lib.rs:785-791 | for at most `S / 2` parts it always gives them back |
| `Aggregator.FeesLossless` | pallets/liquidity-proxy/src/lib.rs:785-796 | the folded fee is the sum of the fees of the chosen samples whenever that sum fits, and fails otherwise |
| `Aggregator.SharesAlmostWhole` | pallets/liquidity-proxy/src/algo.rs:93-103 | the shares of a full split sum to at most one, and miss it by fewer base units than there are sources in use |
| `Aggregator.GenericSplit` | pallets/liquidity-proxy/src/lib.rs:753-811 | every source is asked in proportion to the request and its limit; an accepted split is some split of all the parts whose samples sum to the quoted amount and whose fees sum to the quoted fee; for an exact output no other split is cheaper, for an exact input none yields more if and only if none overflows; it is refused only when that best amount is nothing or the largest number, or when the fees of the best split overflow |
| `Aggregator.SourcesMissMaximum` | pallets/liquidity-proxy/src/lib.rs:780-783 | two sources whose samples lose the maximum, with an amount that passes the test of an accepted split |
| `ProxyExchange.NeverOverspends` | pallets/liquidity-proxy/src/lib.rs:369-389 | the amounts sent to the sources sum to at most the request |
| `ProxyExchange.DustBound` | pallets/liquidity-proxy/src/lib.rs:369-389 | what is left over, for `m` used sources, is below `m * (1 + amount / S)` base units |
| `ProxyExchange.GeneralSplitApportioned` | pallets/liquidity-proxy/src/algo.rs:93-103 | the shares of a general split meet the precondition of both bounds, counting the same sources as used |
| `ProxyExchange.SentFits` | common/src/swap_amount.rs:278-296 | scaling an amount by a share of at most one never fails, and is the floored fraction |
| `ProxyExchange.SentNearSampled` | pallets/liquidity-proxy/src/lib.rs:178-245 | the sample that is counted on for `p` of `n` parts is the source's answer to a request for at least what is sent to it for its share, and for less than `1 + 2 * amount / S` base units more |
| `ProxyExchange.Wallets.ExchangeVia` | pallets/liquidity-proxy/src/lib.rs:379-387 | the contract assumed of a liquidity source: it debits exactly the desired input and credits exactly its outcome, or changes nothing |
| `ProxyExchange.Wallets.ExchangeSingle` | pallets/liquidity-proxy/src/lib.rs:361-411 | either every balance is as before, or the sender paid exactly the total sent, the receiver got exactly the reported amount, and no other balance moved; it lacks funds only if the sender holds less than the total |
| `ProxyExchange.SingleReports` | pallets/liquidity-proxy/src/lib.rs:361-411 | a single exchange succeeds if and only if it was quoted, all sources in use answer, the sender holds what they are sent and the totals fit; it reports the sums of the amounts and of the fees that the sources in use answered |
| `ProxyExchange.ExchangeHops` | pallets/liquidity-proxy/src/lib.rs:295-356 | both hops with rollback: either nothing changes, or each moves exactly its totals and only dust stays in transit |
| `ProxyExchange.ExchangeTwofold` | pallets/liquidity-proxy/src/lib.rs:284-358 | equals a function of the balances before it; a failed two-hop exchange changes nothing; only the sender can lack funds, never the transit account, which keeps only bounded dust; on success every balance is known: the sender paid at most the input, the receiver got the second outcome, no other account changed; the slippage limit holds of what was received or of what was to be paid |
| `ProxyExchange.TwofoldReports` | pallets/liquidity-proxy/src/lib.rs:284-358 | it succeeds if and only if its input is within its limit, both hops are answered, the sender holds what the first is sent and a minimal output is delivered; it reports the fees of all sources in use on both hops |
| `ProxyExchange.OfferedExactly` | pallets/liquidity-proxy/src/lib.rs:284-330 | the input offered to the first hop is the desired one, or the quoted one if and only if that is within the limit |
| `ProxyExchange.DesiredOutputUntested` | pallets/liquidity-proxy/src/lib.rs:323-356 | for a desired output the exchange does the same whatever amount was desired, once the input is quoted |
| `ProxyExchange.DesiredOutputMissed` | pallets/liquidity-proxy/src/lib.rs:323-356 | a concrete pair of hops that succeeds although less than the desired output arrives |
| `FastSplit.ReweighedFits` | pallets/liquidity-proxy/src/lib.rs:1037-1049 | the reduced fraction of the primary market is within zero and one, and routes less than the request |
| `FastSplit.QuotePart` | pallets/liquidity-proxy/src/lib.rs:869-884 | a market is asked, with the loosest limit, for the floored part of the request that its fraction stands for, unless that is nothing; it fails if and only if the request is too large or the market does not answer |
| `FastSplit.QuoteBoth` | pallets/liquidity-proxy/src/lib.rs:865-887 | two fractions that sum to exactly one, parts that total the request or one base unit less, amounts and fees added up as balances; it fails if and only if one of both fails |
| `FastSplit.DecideAmountsBuyingBaseAsset` | pallets/liquidity-proxy/src/lib.rs:823-933 | both branches return a true partition, with the secondary fraction that moves its price to the primary one, clamped |
| `FastSplit.SellingFractions` | pallets/liquidity-proxy/src/lib.rs:1018-1049 | the fractions of a sale, in the order of the source: the secondary one from the prices, the primary one cut to its reserves; they sum to one |
| `FastSplit.DecideAmountsSellingBaseAsset` | pallets/liquidity-proxy/src/lib.rs:945-1077 | both branches return a true partition, and for an exact output the primary market is never asked for more collateral than it has |
| `FastSplit.PrimaryWithinReserves` | pallets/liquidity-proxy/src/lib.rs:1037-1049 | whatever the prices, the part routed to the primary market is at most its collateral reserves |
| `FastSplit.PrimaryCutExactly` | pallets/liquidity-proxy/src/lib.rs:1037-1049 | the primary market gets what the secondary one leaves, unless and only unless that is more than its collateral reserves; then it gets nine tenths of them, but for explicit rounding |
| `FastSplit.PriceTestsExactly` | pallets/liquidity-proxy/src/lib.rs:835-849 | the tests of the prices in terms of the reserves: `y * S < p * x`, or `(p + 1) * x <= y * S` with a quotient that fits |
| `FastSplit.RoutedOnlyIfBetter` | pallets/liquidity-proxy/src/lib.rs:847-862 | nothing is routed to a secondary market that is not at the better price |
| `FastSplit.SecondaryNotOverpriced` | pallets/liquidity-proxy/src/lib.rs:843-867 | buying for an exact input, the routed input never pushes the secondary market's marginal price above the primary price, despite two square roots and every floor |
| `FastSplit.SecondaryNotUnderpriced` | pallets/liquidity-proxy/src/lib.rs:965-983 | selling an exact input, the marginal price after the routed input is at least the primary price, but for what flooring its root drops |
| `FastSplit.SecondaryNotOverpricedForOutput` | pallets/liquidity-proxy/src/lib.rs:888-905 | buying an exact output, the marginal price after the routed output is at most the primary price, but for one unit of reserve and the slack of the floored roots |
| `FastSplit.SecondaryNotUnderpricedForOutput` | pallets/liquidity-proxy/src/lib.rs:1010-1035 | selling for an exact output, before the primary part is cut to the collateral reserves, the marginal price after the routed output is at least the primary price, but for one unit of reserve and the slack of the floored roots |
| `FastSplit.RoutedExactly` | pallets/liquidity-proxy/src/lib.rs:851-859 | the whole trade is routed, or the delta but for less than `1 + amount / S`, if and only if the quotient of the delta and the amount fits; if it does not, nothing is routed |
| `FastSplit.SecondaryReachesPrice` | pallets/liquidity-proxy/src/lib.rs:843-867 | buying for an exact input, the whole trade is routed or the marginal price after the routed input reaches the primary one, at explicit rounding: `T * Q < ((y' + 2) * S + amount) * S + (x + y + 3 * S + 1) * Q`, where `T` and `Q` are the floored roots of `x * y * S * S` and `p * S` |
| `FastSplit.SecondaryReachesPriceForOutput` | pallets/liquidity-proxy/src/lib.rs:888-905 | buying an exact output, the same for the routed output: `((x' - 1) * S - amount) * Q <= T * S` |
| `FastSplit.SecondaryFallsToPrice` | pallets/liquidity-proxy/src/lib.rs:965-983 | selling an exact input, the whole trade is routed or the marginal price falls to the primary one: `T * S < ((x' + 2) * S + amount) * Q + (x + y + 3 * S + 1) * S` |
| `FastSplit.SecondaryFallsToPriceForOutput` | pallets/liquidity-proxy/src/lib.rs:1010-1035 | selling for an exact output, before the cut: `((y' - 1) * S - amount) * S < T * Q` |
| `FastSplit.SmallTradesMiss` | pallets/liquidity-proxy/src/lib.rs:851-854 | concrete reserves and prices at which half of a trade is routed, and nothing of one so small that the quotient overflows, although the price is not reached |
| `FastSplit.BuyingInputPositive` | pallets/liquidity-proxy/src/lib.rs:850-850 | the first delta is positive if and only if the product of the floored roots reaches the next unit of the other reserve |
| `FastSplit.BuyingOutputPositive` | pallets/liquidity-proxy/src/lib.rs:894-894 | the second, if and only if the scaled root of the product is below the base reserve times the root of the price |
| `FastSplit.SellingInputPositive` | pallets/liquidity-proxy/src/lib.rs:972-972 | the third, if and only if the scaled root of the product reaches the next unit of the base reserve times the root of the price |
| `FastSplit.SellingOutputPositive` | pallets/liquidity-proxy/src/lib.rs:1022-1024 | the fourth, if and only if the product of the roots is below the other reserve, which the test of the prices always ensures |
| `FastSplit.BuyingInputMarginSuffices` | pallets/liquidity-proxy/src/lib.rs:849-850 | the first delta is positive if `(y + 1) * S * S <= (t - (x + y + 3 * S + 1)) * q` for some `t` with `t * t <= x * y * S * S` and some `q` with `q * q <= p * S`: a margin in the reserves and the price alone |
| `FastSplit.BuyingOutputMarginSuffices` | pallets/liquidity-proxy/src/lib.rs:893-894 | the second delta is positive if `x * p * S >= y * S * S + 2 * S * (x + y) + x` |
| `FastSplit.SellingInputMarginSuffices` | pallets/liquidity-proxy/src/lib.rs:971-972 | the third delta is positive if `(x + 1) * q <= t - (x + y + 3 * S + 1)` for some `t` with `t * t <= x * y * S * S` and some `q` with `q * q >= p * S`: a margin in the reserves and the price alone |
| `FastSplit.BuyingInputCanFail` | pallets/liquidity-proxy/src/lib.rs:849-850 | concrete reserves and a price that pass the test although the first delta is negative |
| `FastSplit.BuyingOutputCanFail` | pallets/liquidity-proxy/src/lib.rs:893-894 | the same for the second delta, which is zero |
| `FastSplit.SellingInputCanFail` | pallets/liquidity-proxy/src/lib.rs:971-972 | the same for the third delta, which is negative |
| `Proxy.FastSplitPrimaryVsSecondary` | pallets/liquidity-proxy/src/lib.rs:682-743 | without reserves in the secondary market the primary one gets everything at its own quote; otherwise the partition for the direction of the trade; always a distribution that can be executed without overspending |
| `Proxy.QuoteSingle` | pallets/liquidity-proxy/src/lib.rs:492-543 | one source alone, a primary with a secondary market, or an optimal general split, each share with the source it belongs to; every accepted distribution can be executed without overspending |
| `Proxy.ChosenApportioned` | pallets/liquidity-proxy/src/lib.rs:753-811 | every distribution that the general split can promise meets the precondition of execution |
| `XykMath.FeeExactly` | pallets/pool-xyk/src/math.rs:46-69 | the fee is the floor of 0.3%, and exists if and only if three times the amount fits |
| `XykMath.QuoteNearRatio` | pallets/pool-xyk/src/math.rs:75-84 | a matched amount is never above the pool ratio, and short of it by less than `1 + S / reserve` |
| `XykMath.QuoteExists` | pallets/pool-xyk/src/math.rs:75-84 | it exists if and only if both floors fit and the reserve is not zero |
| `XykMath.OneSideMatches` | pallets/pool-xyk/src/math.rs:109-115 | in the second branch the test that the matched amount is at most the desired one cannot fail |
| `XykMath.OptimalDeposit` | pallets/pool-xyk/src/math.rs:93-117 | once both quotes exist it fails if and only if a minimum is missed; otherwise both amounts lie between their bounds, one is the desired one, and the other matches it without exceeding the pool ratio, and short of it by rounding only |
| `XykMath.MarkersBracket` | pallets/pool-xyk/src/math.rs:142-150 | the markers for one side are within explicit rounding, both ways, of the proportional share |
| `XykMath.MarkersExist` | pallets/pool-xyk/src/math.rs:142-150 | they exist if and only if both quotients fit, the inner one being positive |
| `XykMath.MarkersWithinShareExactly` | pallets/pool-xyk/src/math.rs:142-150 | the markers for one side stay within the exact proportional share if and only if the outer floor drops as much as the inner one made them grow |
| `XykMath.MintedWithinShareExactly` | pallets/pool-xyk/src/math.rs:142-150 | what a deposit mints, the lesser of the markers for its two sides, stays within the exact proportional share of a side if and only if the floors compensate on that side |
| `XykMath.MarkersCanExceed` | pallets/pool-xyk/src/math.rs:142-150 | a concrete deposit, with amounts, reserves and supply, that mints more than the exact share of either side |
| `XykMath.PoolRootBelow` | pallets/pool-xyk/src/action_deposit_liquidity.rs:161-171 | the square of the root of the pool is at most the product of the two amounts, and a positive root needs both |
| `XykMath.PoolRootAbove` | pallets/pool-xyk/src/action_deposit_liquidity.rs:161-171 | the root exists for all amounts that fit, and in scaled units misses the geometric mean by at most the two amounts, three wholes and one |
| `XykMath.WithdrawBracket` | pallets/pool-xyk/src/action_withdraw_liquidity.rs:131-150 | a payment is at most `reserve * k / (T + 1000)`, strictly below the reserve, and short of the exact share by an explicit bound |
| `XykMath.WithdrawExists` | pallets/pool-xyk/src/action_withdraw_liquidity.rs:131-150 | a payment exists if and only if the reserve and the floored product fit |
| `XykMath.WithdrawFair` | pallets/pool-xyk/src/action_withdraw_liquidity.rs:131-150 | reserve per issued marker and the locked 1000 never falls |
| `XykMath.BackingKept` | pallets/pool-xyk/src/action_withdraw_liquidity.rs:131-150 | fair payments on both sides keep the square of the markers below the product of the reserves |
| `XykMath.ConstantProduct` | pallets/pool-xyk/src/math.rs:156-182 | `x*y - d*r/D <= (x+d)*(y-y1) < x*y + (x+d)`, and `y1 < y` whenever `x*S >= y` |
| `XykMath.ProductNotFallenExactly` | pallets/pool-xyk/src/math.rs:156-182 | the product does not fall if and only if flooring the output drops as much as flooring the price made it grow |
| `XykMath.ProductCanFall` | pallets/pool-xyk/src/math.rs:156-182 | a concrete swap on the other side of that condition, on which the product falls by exactly what the lower bound allows |
| `XykMath.ExactInputProduct` | pallets/pool-xyk/src/math.rs:156-182 | both bounds and the exact condition, for the reserves after an exact-input swap in either fee mode |
| `XykMath.ProductLoss` | pallets/pool-xyk/src/math.rs:156-182 | however it is rounded, in either fee mode, the product falls by at most `(y1 + 1) * y / S` when `y1` leaves the reserve `y` |
| `XykMath.ExactInputFee` | pallets/pool-xyk/src/math.rs:156-182 | the fee never exceeds what it is taken from |
| `XykMath.ExactInputExists` | pallets/pool-xyk/src/math.rs:156-182 | in either fee mode a swap of an exact input can be calculated if and only if the reserves, both quotients and three times what the fee is taken from fit |
| `XykMath.InputCovers` | pallets/pool-xyk/src/math.rs:186-219 | an exact output is charged at least its exact price less one base unit |
| `XykMath.ExactOutput` | pallets/pool-xyk/src/math.rs:186-219 | an exact output is strictly below its reserve, its fee fits into what it is taken from, and with one more base unit of input the product would grow (fee on the output) or be kept but for one unit of either side (fee on the input) |
| `XykMath.ExactOutputPrice` | pallets/pool-xyk/src/math.rs:186-219 | the input charged for `y1` out of a reserve of which `left` remains is the exact price `x * y1 / left` within explicit rounding, from below and from above; `y1` and `left` in terms of 997 and 1000 and the fee exact, in either fee mode |
| `XykMath.ExactOutputExists` | pallets/pool-xyk/src/math.rs:186-219 | a swap for an exact output can be calculated if and only if less than the reserve leaves it and the quotients and tripled amounts fit |
| `XykMath.DestinationFee` | pallets/pool-xyk/src/math.rs:193-205 | the fee on an exact output is the floor of 3/997 of it |
| `Ledger.Chain.Transfer` | pallets/assets/src/lib.rs:619-628 | in place, as the function on states: moves the amount, or fails for want of funds or by overflow and changes nothing |
| `Ledger.Chain.TransferIn` | pallets/technical/src/lib.rs:189-200 | a transfer to a registered technical account only |
| `Ledger.Chain.TransferOut` | pallets/technical/src/lib.rs:202-212 | a transfer from a registered technical account only |
| `Ledger.Chain.MintTo` | pallets/assets/src/lib.rs:639-650 | raises the balance and the issuance, or fails by overflow and changes nothing |
| `Ledger.Chain.BurnFrom` | pallets/assets/src/lib.rs:652-664 | lowers the balance and the issuance, or fails for want of funds and changes nothing |
| `Ledger.Chain.UpdateReserves` | pallets/pool-xyk/src/lib.rs:126-145 | the entry is written base asset first, whichever way round the assets come |
| `Ledger.TransferSucceeds` | pallets/assets/src/lib.rs:619-628 | on a ledger whose issuances are its sums, a transfer fails if and only if the sender lacks the funds |
| `Ledger.TransferSound` | pallets/assets/src/lib.rs:619-628 | a transfer keeps every issuance equal to the sum of its balances |
| `Ledger.MintSound` | pallets/assets/src/lib.rs:639-650 | so does minting |
| `Ledger.BurnSound` | pallets/assets/src/lib.rs:652-664 | and burning |
| `XykActions.PairSwapAction.constructor` | pallets/pool-xyk/src/lib.rs:372-391 | a fresh action with a receiver and bounds, everything else open |
| `XykActions.PairSwapAction.PrepareAndValidate` | pallets/pool-xyk/src/action_pair_swap.rs:56-333 | the same errors, in the same order, as the specification; on success every open field is filled in |
| `XykActions.PairSwapAction.DecideAmounts` | pallets/pool-xyk/src/action_pair_swap.rs:137-220 | decides the amount that is not desired, and the fee |
| `XykActions.PairSwapAction.Reserve` | pallets/pool-xyk/src/action_pair_swap.rs:350-416 | all three transfers and a refreshed cache, or an unchanged chain |
| `XykActions.DepositLiquidityAction.PrepareAndValidate` | pallets/pool-xyk/src/action_deposit_liquidity.rs:62-322 | the same errors, in the same order, as the specification; on success all amounts are determined |
| `XykActions.DepositLiquidityAction.Reserve` | pallets/pool-xyk/src/action_deposit_liquidity.rs:343-381 | both transfers, the mint and a refreshed cache |
| `XykActions.WithdrawLiquidityAction.PrepareAndValidate` | pallets/pool-xyk/src/action_withdraw_liquidity.rs:62-210 | the same errors, in the same order, as the specification; on success all amounts are determined |
| `XykActions.WithdrawLiquidityAction.Reserve` | pallets/pool-xyk/src/action_withdraw_liquidity.rs:231-269 | both payments, the burn and a refreshed cache |
| `XykActions.InitializePool` | pallets/pool-xyk/src/lib.rs:147-187 | registers the pool's and the fee account once, or changes nothing |
| `XykActions.Exchange` | pallets/pool-xyk/src/lib.rs:348-412 | an exchange by an action object on mutable storage is the function on states; a failed one leaves the chain as it was |
| `XykActions.DepositLiquidity` | pallets/pool-xyk/src/lib.rs:189-233 | likewise for deposits, with a rollback of partial effects |
| `XykActions.WithdrawLiquidity` | pallets/pool-xyk/src/lib.rs:235-275 | likewise for withdrawals |
| `PoolSteps.SyncAgrees` | pallets/pool-xyk/src/lib.rs:126-145 | after a refresh the entry of the pair equals the pool account's balances, whichever way round the assets were passed, and no other entry changed |
| `PoolSteps.ValidSwap` | pallets/pool-xyk/src/action_pair_swap.rs:117-332 | a validated swap is funded, its fee fits into what it is taken from, and it leaves a positive reserve |
| `PoolSteps.SwapCompletes` | pallets/pool-xyk/src/action_pair_swap.rs:350-416 | all transfers of a validated swap succeed, and every balance after it is known: sender, receiver, pool and fee account |
| `PoolSteps.PoolsAfter` | pallets/pool-xyk/src/lib.rs:126-145 | all pools after an operation on one of them that pays some account: solvent; whole if and only if it does not fill one side of another, empty pool; in agreement with the cache if and only if it does not raise a reserve of another pool |
| `PoolSteps.SwapKeepsPoolsExactly` | pallets/pool-xyk/src/action_pair_swap.rs:350-416 | a validated swap completes, keeps its own pool in use and in agreement with the cache, and harms another one if and only if it delivers base asset to its account |
| `PoolSteps.SwapRespectsRequest` | pallets/pool-xyk/src/action_pair_swap.rs:137-220 | the desired side is exact and the other side respects its limit before the fee; after it, a minimal output is still met if and only if there is no fee on the output or `997 * output > 1000 * (minimum - 1)`, and an exact output is delivered in full if and only if there is none or it is below one base unit |
| `PoolSteps.SwapProduct` | pallets/pool-xyk/src/action_pair_swap.rs:350-416 | an exact-input swap keeps the product of the ledger's reserves up to explicit rounding, and the product does not fall under the exact condition |
| `PoolSteps.SwapProductForOutput` | pallets/pool-xyk/src/action_pair_swap.rs:350-416 | an exact-output swap keeps the product of the ledger's reserves but for one more unit of input, in either fee mode |
| `PoolSteps.SwapChargesForOutput` | pallets/pool-xyk/src/action_pair_swap.rs:350-416 | an exact-output swap adds to the ledger's source reserve the exact price of what leaves the other one, within explicit rounding both ways, less a fee on the input; the fee is exact |
| `PoolSteps.PairExactly` | pallets/pool-xyk/src/utils.rs:145-162 | two assets name a pool if and only if just one of them is the base asset; the errors otherwise |
| `PoolSteps.FeeInBase` | pallets/pool-xyk/src/utils.rs:78-91 | whichever asset is sold, the fee is charged in the base asset |
| `XykPool.PostSwapExactly` | pallets/pool-xyk/src/action_pair_swap.rs:306-332 | the check after a swap accepts it if and only if the numbers fit, the destination reserve is not emptied, and the ratio of the reserves rises by less than ten |
| `PoolSteps.SwapRefusedBeforehand` | pallets/pool-xyk/src/action_pair_swap.rs:94-121 | an unregistered pool, a sender without funds and an empty pool are refused, each with its own error, whatever is asked for |
| `PoolSteps.DepositRefusedBeforehand` | pallets/pool-xyk/src/action_deposit_liquidity.rs:107-142 | the same for deposits, except that an empty pool accepts them |
| `PoolSteps.WithdrawRefusedBeforehand` | pallets/pool-xyk/src/action_withdraw_liquidity.rs:110-129 | the same for withdrawals |
| `PoolSteps.SwapAcceptedExactly` | pallets/pool-xyk/src/action_pair_swap.rs:137-332 | a swap request to a pool in use whose amounts can be calculated is accepted if and only if the limit is kept, the balances suffice and the ratio rises by less than ten |
| `PoolSteps.BothDesired` | pallets/pool-xyk/src/action_pair_swap.rs:141-164 | with both amounts desired, an accepted swap is as desired, keeps the product and charges the exact price |
| `PoolSteps.FirstDepositAcceptedExactly` | pallets/pool-xyk/src/action_deposit_liquidity.rs:144-171 | a deposit into an empty pool is accepted if and only if the sender holds both amounts and their root exists and is at least 500 |
| `PoolSteps.LaterDepositAcceptedExactly` | pallets/pool-xyk/src/action_deposit_liquidity.rs:239-340 | a deposit into a pool in use is accepted if and only if its amounts can be calculated, the sender holds them, and root and markers together reach 1000 |
| `PoolSteps.LaterDepositAmounts` | pallets/pool-xyk/src/action_deposit_liquidity.rs:239-262 | amounts within their bounds and at the pool's ratio, markers within rounding of the smaller share, and within the exact share of a side if and only if the floors compensate on it |
| `PoolSteps.ValidFirstDeposit` | pallets/pool-xyk/src/action_deposit_liquidity.rs:144-171 | a first deposit takes both desired amounts, both positive, with a root of at least 500 |
| `PoolSteps.DepositKeepsPools` | pallets/pool-xyk/src/action_deposit_liquidity.rs:343-381 | a validated deposit completes, adds exactly its amounts to both reserves and its markers to the issuance, and keeps all pools solvent, whole and in agreement with the cache |
| `PoolSteps.DepositTransfers` | pallets/pool-xyk/src/action_deposit_liquidity.rs:343-381 | what a deposit does to every balance and issuance |
| `PoolSteps.ValidWithdraw` | pallets/pool-xyk/src/action_withdraw_liquidity.rs:115-197 | each payment of a validated withdrawal is strictly below its reserve, so the check that is commented out is not needed |
| `PoolSteps.WithdrawAcceptedExactly` | pallets/pool-xyk/src/action_withdraw_liquidity.rs:115-197 | a funded withdrawal from a pool in use whose two shares can be calculated is accepted if and only if both shares reach their minima, and refused for that reason |
| `PoolSteps.WithdrawKeepsPools` | pallets/pool-xyk/src/action_withdraw_liquidity.rs:231-269 | a validated withdrawal completes, takes exactly its amounts from both reserves and its markers from the issuance, and keeps all pools solvent, whole and in agreement with the cache |
| `PoolSteps.WithdrawTransfers` | pallets/pool-xyk/src/action_withdraw_liquidity.rs:231-269 | what a withdrawal does to every balance and issuance |
| `PoolRuns.StepKeepsPoolsExactly` | pallets/technical/src/lib.rs:93-131 | every step, successful or rolled back, keeps all pools solvent and the issuance of every traded asset; pools stay whole, and the cache in agreement, if and only if the step does not pay past an empty pool, or past any pool, to its account |
| `PoolRuns.RunKeepsSolvent` | pallets/technical/src/lib.rs:93-131 | in every reachable state the pools are solvent, issuances are the sums of the balances, and the total of every traded asset over all accounts is what it was |
| `PoolRuns.RunWholeExactly` | pallets/pool-xyk/src/action_pair_swap.rs:117-121 | both reserves of every pool are zero or both positive all along a run if and only if no step of it pays past an empty pool to its account |
| `PoolRuns.RunAgreesExactly` | pallets/pool-xyk/src/lib.rs:126-145 | the cache agrees with the ledger all along a run if and only if no step of it pays past a pool to its account |
| `PoolRuns.NeverInvalid` | pallets/pool-xyk/src/action_pair_swap.rs:117-121 | after every run without such a payment to an empty pool, the error for a half-empty pool is unreachable |
| `PoolRuns.HalfEmptyRefuses` | pallets/pool-xyk/src/action_deposit_liquidity.rs:135-142 | a registered pool that is half empty refuses every funded deposit and swap with that error |
| `Examples.SwapBreaksOtherPool` | pallets/pool-xyk/src/lib.rs:464-480 | a concrete run: a swap delivers base asset to the account of an empty pool, and a funded deposit into that pool is then refused |
| `PoolRuns.ValidationSuffices` | pallets/pool-xyk/src/action_pair_swap.rs:137-332 | in every reachable state, whoever was paid before, whatever passes validation completes, for every kind of step |
| `PoolRuns.OutcomeReported` | pallets/pool-xyk/src/lib.rs:348-412 | the outcome that an exchange reports is what the sender paid or what arrived at the receiver, its fee is what the fee account gained, and what arrives meets the request under the exact conditions |
| `PoolRuns.OutcomeCharged` | pallets/pool-xyk/src/lib.rs:348-412 | for a desired output, what the sender paid is the exact price of it at the reserves before, within explicit rounding both ways |
| `PoolRuns.WithdrawPays` | pallets/pool-xyk/src/action_withdraw_liquidity.rs:231-269 | after a committed withdrawal the sender has exactly the requested markers less, and of either asset at least the minimum and the exact share but for rounding more |
| `PoolRuns.DepositTakes` | pallets/pool-xyk/src/action_deposit_liquidity.rs:343-381 | after a committed deposit into a pool in use the sender has paid amounts within their bounds, one as desired and the other one matching, and got markers for the smaller share, each within rounding |
| `PoolRuns.InitialisedOnce` | pallets/pool-xyk/src/lib.rs:147-187 | initialising a pool registers exactly its two accounts, and after any run every further attempt is refused |
| `Examples.MinimumMissed` | pallets/pool-xyk/src/action_pair_swap.rs:165-190 | a concrete exchange that is accepted although less than the minimal output arrives |
| `Examples.OutputMissed` | pallets/pool-xyk/src/action_pair_swap.rs:192-212 | a concrete exchange that is accepted although less than the desired output arrives |
| `PoolRuns.FirstDepositBackedExactly` | pallets/pool-xyk/src/action_deposit_liquidity.rs:301-319 | after a first deposit `(issuance + 1000)^2 <= reserve_a * reserve_b` if and only if the root reaches 1000 |
| `Examples.FirstDeposits` | pallets/pool-xyk/src/action_deposit_liquidity.rs:301-319 | concrete runs on both sides of that condition: equal amounts `r * r` pass the guard from `r = 23` on, are backed from `r = 32` on, and in between the issuance wraps to nearly 2^128 |
| `PoolRuns.WithdrawalFairness` | pallets/pool-xyk/src/action_withdraw_liquidity.rs:131-150 | a withdrawal never lowers the reserve per issued marker and the locked 1000, on either side |
| `PoolRuns.RunKeepsBacking` | pallets/pool-xyk/src/action_withdraw_liquidity.rs:134-150 | a backed pool stays backed along every run that only withdraws from it, whatever happens in other pools and whoever is paid |
| `PoolRuns.LaterDepositDilutes` | pallets/pool-xyk/src/action_deposit_liquidity.rs:343-381 | a deposit into a pool in use raises the square of issuance and locked 1000, against the product of the reserves, at most by the factor by which either scaled reserve exceeds itself less the supply |
| `PoolRuns.DilutedNearlyBacked` | pallets/pool-xyk/src/action_deposit_liquidity.rs:343-381 | so a backed pool stays backed but for that factor |
| `PoolRuns.SwapNearlyBacked` | pallets/pool-xyk/src/action_pair_swap.rs:350-416 | a swap leaves a backed pool backed but for `(y1 + 1) * y / S`, for an exact input, or one unit of either reserve and the input, for an exact output, whoever receives |
| `BondingCurve.WorthRises` | pallets/bonding-curve-pool/src/lib.rs:398-424 | the worth of an issuance never falls, with all its floors, and exists for every smaller issuance |
| `BondingCurve.BuyingInSteps` | pallets/bonding-curve-pool/src/lib.rs:398-424 | buying in two steps succeeds if and only if buying at once does, and costs exactly the same, rounding included |
| `BondingCurve.SellingInParts` | pallets/bonding-curve-pool/src/lib.rs:398-424 | splitting a sale into `m` parts loses at most `m - 1` base units and never gains |
| `BondingCurve.SellingBack` | pallets/bonding-curve-pool/src/lib.rs:398-424 | selling back what was just bought returns at most the sell coefficient times its cost |
| `BondingCurve.BuyQuoteBound` | pallets/bonding-curve-pool/src/lib.rs:453-475 | for any parameters the exact integral price of a buy quote is at most the payment, up to what flooring the offset dropped |
| `BondingCurve.BuyQuoteNeverOverDelivers` | pallets/bonding-curve-pool/src/lib.rs:453-475 | `q^2 + 2q(Q + C) <= 2 * PC * P` when the parameter products are exact at 18 digits |
| `BondingCurve.BuyQuoteTight` | pallets/bonding-curve-pool/src/lib.rs:453-475 | one base unit more would cost more than the payment less explicit rounding |
| `BondingCurve.BuyRoundTrip` | pallets/bonding-curve-pool/src/lib.rs:398-475 | a quote priced by the other formula costs less than the payment, one base unit and one for each whole main asset issued |
| `BondingCurve.SellQuoteCovers` | pallets/bonding-curve-pool/src/lib.rs:476-484 | the quantity asked for a price is worth at least that price at the sell coefficient, but for an explicit rounding term |
| `BondingCurve.SellQuoteTight` | pallets/bonding-curve-pool/src/lib.rs:476-484 | all but one unit of the quantity asked for would be worth less than the price, but for explicit rounding |
| `BondingCurve.BuyAmountsCover` | pallets/bonding-curve-pool/src/lib.rs:508-547 | whichever side of a purchase is desired, that side is exact and the payment is the exact integral within explicit rounding: never less than it, and for a desired input one base unit more would cost more than the payment, for a desired output the payment is no more than it |
| `BondingCurve.SellAmountsCovered` | pallets/bonding-curve-pool/src/lib.rs:552-589 | whichever side of a sale is desired, that side is exact and the payout is the sell coefficient times the exact integral over the quantity sold, within explicit rounding both ways |
| `BondingCurve.DefaultsExact` | pallets/bonding-curve-pool/src/lib.rs:844-877 | the default parameters are exact at 18 digits |
| `Examples.PaymentBuys` | pallets/bonding-curve-pool/src/lib.rs:453-475 | with the default parameters and nothing issued, a payment of 100.3 million buys exactly one million |
| `Examples.QuantityCosts` | pallets/bonding-curve-pool/src/lib.rs:398-424 | the other formula asks exactly that payment, and buying back pays exactly four fifths of it |
| `Examples.PriceSells` | pallets/bonding-curve-pool/src/lib.rs:476-484 | for those four fifths exactly the million is asked |
| `Permissions.SearchIsMembership` | pallets/permissions/src/lib.rs:276-283 | on a sorted vector bisection finds a permission if and only if it is there |
| `Permissions.InsertionSorted` | pallets/permissions/src/lib.rs:161-165 | inserting where the search points keeps the vector sorted and adds just the one permission |
| `Permissions.InitialHeld` | pallets/permissions/src/lib.rs:415-423 | every vector of the genesis storage is the last configured one for its holder and scope, sorted, and empty without one |
| `Permissions.GenesisInv` | pallets/permissions/src/lib.rs:415-423 | whatever is configured, every vector of the genesis storage is sorted, so that runs from it meet the precondition of the results below |
| `Permissions.Pallet.constructor` | pallets/permissions/src/lib.rs:387-424 | the loops over the genesis configuration build the genesis storage |
| `Permissions.Pallet.CheckPermissionWithScope` | pallets/permissions/src/lib.rs:108-126 | the check on storage is the check of the specification |
| `Permissions.Pallet.GrantPermissionWithScope` | pallets/permissions/src/lib.rs:138-172 | in place, as the function on stores; an error changes nothing |
| `Permissions.Pallet.TransferPermission` | pallets/permissions/src/lib.rs:175-200 | in place, as the function on stores; the first occurrence of the owner is replaced |
| `Permissions.Pallet.CreatePermission` | pallets/permissions/src/lib.rs:203-230 | in place, as the function on stores; an error changes nothing |
| `Permissions.Pallet.AssignPermission` | pallets/permissions/src/lib.rs:234-274 | in place, as the function on stores; an error changes no owners, modes or holdings |
| `Permissions.StepGivesExactly` | pallets/permissions/src/lib.rs:138-274 | a step adds a permission to an account if and only if an owner grants it, it is created, or one of mode `Permit` is assigned; no step takes one away |
| `Permissions.HoldersWereGiven` | pallets/permissions/src/lib.rs:138-274 | along every run an account holds a permission if and only if it did at the start or some step with the right to do so gave it |
| `Permissions.TransferReplacesOwner` | pallets/permissions/src/lib.rs:175-200 | a transfer replaces exactly one occurrence of the owner who signs it, in its own scope, and otherwise changes no owner |
| `Permissions.OwnersAdded` | pallets/permissions/src/lib.rs:203-274 | apart from transfers, owners are only added, and only by creation or assignment |
| `Permissions.OwnersWereMade` | pallets/permissions/src/lib.rs:175-274 | whoever owns a permission after a run owned it before, or was made an owner by a creation, an assignment, or a transfer that an owner signed |
| `Permissions.InitiallyOwned` | pallets/permissions/src/lib.rs:388-395 | the owners in the genesis storage are the last configured ones for the permission and scope, and none without them |
| `Permissions.InitialModesAre` | pallets/permissions/src/lib.rs:397-413 | thirteen permissions have a mode at genesis, and only the first is forbidden to its holders |
| `Permissions.ModesWereSet` | pallets/permissions/src/lib.rs:203-230 | along every run a permission exists if and only if it did at the start or was created, with the mode it had then or the one requested |
| `Permissions.RefusedExactly` | pallets/permissions/src/lib.rs:138-274 | every step is refused if and only if, and for the reason that, its signer does not own the permission, it does not exist or exists already, or nothing would change |
| `Permissions.RunKeeps` | pallets/permissions/src/lib.rs:138-283 | along every run all vectors stay sorted, modes never change, holdings only grow, and owned permissions stay owned |
| `Permissions.CheckIsMembership` | pallets/permissions/src/lib.rs:108-126 | in every reachable store the bisecting check says exactly whether the account has the permission, in the scope or without limits |
| `Permissions.ChecksMonotone` | pallets/permissions/src/lib.rs:108-126 | a passing `Permit` check keeps passing and a failing `Forbid` check keeps failing, along every run |

## Left out

- Derivation of accounts and asset identifiers by hashing and encoding: injective constructors stand for it.
- Asset existence, mintability, and mint, burn and transfer permission checks inside asset operations, trading-pair enabling and exchange management rights: they reject requests before any amount is decided.
- Events, consumer and provider reference counts and the error they can raise.
- Locks and an existential deposit other than zero.
- The distinction between arithmetic errors inside a fixed-point calculation: there is one kind of failure.
- Conversions through 64-bit floating point (`common/src/fixed_wrapper.rs:85-95`, `:127-137`).
- The truncation of a rounded part count to 64 bits: it cannot be met with sample counts whose whole number of units fits in a fixed-point number.
- The deposit branch with a desired amount of markers (`pallets/pool-xyk/src/action_deposit_liquidity.rs:198-238`): the deposit operation never passes one, and the branch divides by zero on a pool in use.
- Actions submitted directly with a fee, a fee account or a minimum liquidity already filled in, and validation without a source account: the modelled operations leave these fields open.
- Dry runs that roll back (`quote` and `can_exchange` of the pools), the two-swap action, and the calculation of the base-asset part of a pool share.
- The third branch of the cache update, for a pair without the base asset: no pool has such a pair.
- Listing and filtering of liquidity sources, enabled paths, the two-hop quote and the one-hop wrapper around a single exchange; the fast split for a pair without the base asset, which is an error.
- The behaviour of the liquidity sources behind the proxy, and the limits that are passed to them: a source is the contract of `ProxyExchange.Wallets.ExchangeVia`, and a quote any function of the request.
- Exact-output exchanges of a single hop through the proxy: only the sources decide what they debit.
- Moving the balances of bonding curve purchases and sales, the distribution of reserves, and the quote of the bonding curve, which prices an exact input on the wrong asset.
- Node, runtime wiring, weights, benchmarks, migrations and test doubles.
