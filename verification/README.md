# Polaris contracts: a Dafny model

This project models the collateralised YES/NO market of the Polaris contracts, its integer
constant-product AMM, the perpetual variant of the market and the base64url encoder of the smart
wallet, and proves what they keep over whole runs.

| file | what it holds |
|---|---|
| `Types.dfy`, `Arithmetic.dfy` | shared values; truncating division, square roots, small nonlinear facts |
| `CtfMath.dfy` | the pricing formulas and their rounding |
| `FixedWidth.dfy` | the same formulas in checked 128-bit arithmetic, with the square root loop |
| `Ledger.dfy` | balances without zero entries, their sums, and the `Book` both contracts write |
| `Oracle.dfy` | price conversion, feed selection, corroboration |
| `Exchange.dfy` | what both contracts do to the book: effects, quotes and guarded handlers, as functions |
| `Storage.dfy` | the storage both contracts overwrite, with those handlers step by step, verified against `Exchange` |
| `Market.dfy` | the market as a state machine: configuration, state, calls, `Exec`, `Step`, `Run` |
| `MarketContract.dfy` | the market as an object over that storage, verified against `Market` |
| `Solvency.dfy` | what every call keeps: conservation, backing, positive reserves, no debt |
| `Calls.dfy` | what each market call does, in the fields of the state alone: success, error, value, every balance |
| `Trading.dfy` | the pool product, the seed, round trips, exact price direction, undoing calls |
| `Redemption.dfy` | lifecycle, settlement, order independence, who is paid, draining a closed market |
| `Shortfalls.dfy` | runs from initialization in which a promise of the design fails |
| `Perpetual.dfy`, `PerpetualContract.dfy` | the perpetual contract in the same two forms; only what differs from the market |
| `PerpetualCalls.dfy` | the same for the perpetual contract's own calls, and where its recorded price comes from |
| `Simulation.dfy` | the two contracts simulate each other; checkpoints are stutter steps |
| `Base64Url.dfy` | the in-place encoder, a strict decoder, challenge binding |

## How to read it

A call either succeeds, with a new state and a return value, or fails with an error and changes
nothing. The imperative entrypoints follow the source step by step (their writing halves are methods
of their own) and may leave half-written storage when they fail; `Invoke` is the host that restores
it, and it is what is equal to `Market.Step`. The two contracts share their trading handlers, which
the source repeats line for line; they are written once, in `Storage`. A run is any sequence of calls with any clock readings, any callers and any
oracle answers, including transfers of the collateral token by other parties; nothing is assumed
about the order of the clock readings, so every theorem also holds of runs with a real clock.

What each call does is stated in `Calls` and `PerpetualCalls` without the functions that define the
transitions: by the fields of the state, the constants of the source written out, and the inequalities
that determine fees, outputs, payouts and prices.

Integers are mathematical, except that the fee's cast to 32 bits and the traps of division by zero and
of price conversion are modelled. In the compiled contracts any other overflow traps and reverts the
call, which is a step that changes nothing, so the invariants are unaffected by it; `FixedWidth` shows
separately that quotes and the numbers written back cannot overflow within stated bounds. Shares and prices are
divided with truncation toward zero, written out as `TruncDiv`. The contract's own address can sign
for nothing (`AuthTrap`); every other caller is taken to have signed.

Three promises of the source hold only with a qualification, and the model follows the code:

* The comment on the fee curve (contracts/ctf-math/src/lib.rs:80-85) says that `total_supply >=
  initial_liquidity` while open. Rounding can break it: `Shortfalls.SupplyFallsBelowSeed` is a run of
  three trades that does, and `Shortfalls.RoundingErodesSeed` reaches any supply from two up.
  `Trading.SeedPromiseIff` is the exact condition, on the quotes of the merges and sells of a run.
  Independently, each trade has a surplus, computed from its quote, and the pool product is the square
  of the seed plus a quarter of all surpluses (`Trading.ProductIsSeedPlusSurplus`): the promise holds
  whenever the running surplus is never negative (`Trading.SeedIsKept`), so that earlier fees pay for
  later rounding, and once everybody has unwound it holds exactly when the total surplus is not
  negative (`Trading.UnwoundSupply`). `Trading.LargeFeeCovers` is a condition on one quote that suffices.
* Payouts after a cancellation equal `total_supply` (README.md:187-190) only up to odd holdings:
  `Shortfalls.OddSharesStayBehind` is a run to a state with one unit left in which every redemption is
  refused, `Redemption.ReachableCancelledDrain` the exact remainder in every reachable state and the
  exact condition for there to be none. Odd holders can still join their shares by transfers;
  `Redemption.LeastRemainder` is what no call can recover.
* Balances can become negative: once rounding has eroded the supply to a twentieth of the seed the fee
  is twice the whole amount, and a buyer who accepts a negative output ends in debt
  (`Shortfalls.RunIntoDebt`), which also lowers the price of the side bought, and can starve somebody
  else's claim (`Shortfalls.DebtStarves`). The exact conditions are on the quote of each buy:
  `Solvency.DebtFree` for debt, with `Solvency.StepKeeps` for one call and `Solvency.NeverInDebtIff` for
  a run, and `Trading.PriceKept` for the price, with `Trading.TradesMovePrice`. A fee of at most the
  whole amount, as it is while the supply is at least a tenth of the seed (`CtfMath.FeeInBand`),
  suffices (`Solvency.SafeBuyIsDebtFree`, `Trading.BuyMovesOdds`). `Redemption.ReachableRedeemIff` and
  `Redemption.ReachablePaidIff` say exactly who is paid in every final state, debts or not.
  Conservation, backing and positive reserves need no such hypothesis.

## Model

| member | source | states |
|---|---|---|
| Solvency.EveryStateIsBacked | contracts/market/src/lib.rs:28-32 | In every state of every run from initialization, with no assumption on trades or callers: each side's pool plus balances is the supply while open, the winning side's balances are the supply after settlement, twice the supply is all shares plus the odd redemptions so far after cancellation, collateral is the supply plus donations, and collateral is neither created nor destroyed; if every buy was debt-free by its quote, no balance is negative |
| Solvency.StepKeeps | contracts/market/src/lib.rs:425-779 | Every single call keeps that invariant, moving the donation and odd-redemption counters by exactly what the call contributed; and from a state without debt a call leads to one without debt if and only if it is not a buy whose quote eats more than the buyer then holds |
| Solvency.NeverInDebtIff | contracts/market/src/lib.rs:496-526 | No state of a run has a negative balance if and only if each of its buys is debt-free by its own quote |
| Solvency.SafeBuyIsDebtFree | contracts/market/src/lib.rs:477-526 | A fee of at most the whole amount, or a slippage floor that the buyer's holding covers, makes a buy debt-free |
| Solvency.BuyQuoteBounds | contracts/market/src/lib.rs:496-526 | A successful buy leaves at least one share, indeed more than half, in the drained reserve, has a positive new input reserve, and returns collateral plus output; the division-free condition on the quote is the sign of the buyer's new balance |
| Solvency.SellQuoteBounds | contracts/market/src/lib.rs:561-585 | A successful sell pays at least one unit, at most the post-fee shares, and less than half the opposite reserve, whatever the fee |
| Solvency.SellKeeps | contracts/market/src/lib.rs:576-585 | A sell keeps the books and never lowers the sold side's reserve |
| Solvency.BuyKeeps | contracts/market/src/lib.rs:514-526 | A buy keeps both ledgers conserved, and leaves no debt exactly when its quote says so |
| Calls.FeeIsCharged | contracts/ctf-math/src/lib.rs:68-91 | The quoted fee is the low 32 bits of the curve in the configured rates, seed and supply, and a trade is left with its amount less the floor of its share at that rate |
| Calls.BuySucceeds | contracts/market/src/lib.rs:484-523 | A buy succeeds if and only if somebody other than the contract, before expiry of an open market, puts up a positive amount they have, and the ceiling output for that amount less the charge is at least what was asked and less than half of the reserve |
| Calls.BuyDoes | contracts/market/src/lib.rs:496-534 | It pays exactly its collateral to the contract, is charged the floor of its share at the rate in force, gets its collateral's worth of shares plus the ceiling output for the rest, moves both reserves and the supply accordingly, and nobody else's balance |
| Calls.BuyRefusal | contracts/market/src/lib.rs:484-523 | Which error a refused buy gives: the first guard it fails |
| Calls.SellSucceeds | contracts/market/src/lib.rs:546-575 | A sell succeeds if and only if somebody other than the contract, before expiry of an open market, gives up a positive amount they hold, and the integer nearest to the root for that amount less the charge is at least one and what was asked, less than half of the reserve, and covered |
| Calls.SellDoes | contracts/market/src/lib.rs:561-593 | It is charged the floor of its share at the rate in force, pays the integer nearest to the root for the rest to the seller, moves both reserves and the supply accordingly, and nobody else's balance |
| Calls.SellRefusal | contracts/market/src/lib.rs:546-575 | Which error a refused sell gives: the first guard it fails |
| Calls.SplitDoes | contracts/market/src/lib.rs:425-447 | A split succeeds if and only if the market is open, the caller is not the contract and the amount is between one and what the caller has; its whole effect, and the error otherwise |
| Calls.MergeDoes | contracts/market/src/lib.rs:450-472 | A merge succeeds if and only if the market is open, the caller is not the contract, and the positive amount is held of both sides and covered by the collateral; its whole effect, and the error otherwise |
| Calls.MergeIsCovered | contracts/market/src/lib.rs:450-472 | In a debt-free open state the collateral always covers a merge of held shares |
| Calls.TransferDoes | contracts/market/src/lib.rs:596-613 | A transfer succeeds in any status if and only if the sender is not the contract and holds the positive amount, whatever the receiver holds; its whole effect, transfers to oneself included, and the error otherwise |
| Calls.SettleDoes | contracts/market/src/lib.rs:616-695 | A settlement succeeds if and only if the market is open and expired and the update carries a positive price of the configured feed dated within 300 seconds of expiry, which every configured oracle stands behind: answer within its age limit, in the decimals of initialization, within tolerance; the price is recorded, its side of the strike wins, and the pools' shares are all that moves |
| Calls.SettleRefusal | contracts/market/src/lib.rs:616-684 | Which error a refused settlement gives: status, time, signed price, then the first oracle's fault before the second's, each by its own name |
| Calls.CancelDoes | contracts/market/src/lib.rs:699-718 | A cancellation succeeds if and only if the market is open and expiry and grace period are over; its whole effect, and the error otherwise |
| Calls.RedeemDoes | contracts/market/src/lib.rs:721-779 | A redemption succeeds if and only if the position of somebody other than the contract is worth at least one unit and the collateral covers it; it pays that worth, the whole position is gone, and nobody else's balance moves; and the error otherwise |
| Calls.InitializeDoes | contracts/market/src/lib.rs:337-422 | A market starts if and only if parameters and oracles pass and the admin can pay the seed; the initial state, and the first error otherwise |
| Calls.QuotesDo | contracts/market/src/lib.rs:800-818 | The quoted prices are the floored share of the other reserve for Yes and the rest for No, while open only; the quoted fee is the rate in force |
| Trading.TradeProduct | contracts/market/src/lib.rs:496-526 | A trade moves the pool product by exactly its surplus, and lowers it if and only if its fee does not cover its rounding, both read off the quote: for a buy the division's remainder against the fee times the new reserve, for a sell parity and remainder of the square root against the fee |
| Trading.ProductIsSeedPlusSurplus | contracts/ctf-math/src/lib.rs:80-85 | In every open state from initialization four times the product is four times the square of the seed plus the sum of all surpluses; and the product stays at its start or above in every open state of a run if and only if the running sum is never negative |
| Trading.SeedPromiseIff | contracts/ctf-math/src/lib.rs:80-85 | The comment's promise in exact form: the supply stays at the seed or above in every open state of a run if and only if the run makes no merge of more than the margin over the seed and no sell that the sum, the margin and the discriminant of its quote forbid; and then the fee is inside its configured band while open |
| Trading.KeepsSeedIff | contracts/market/src/lib.rs:450-593 | The same for one call from any open state at the seed or above |
| Trading.UnwoundSupply | contracts/ctf-math/src/lib.rs:80-85 | In every reachable open state in which everybody has unwound, the square of the supply is the square of the seed plus a quarter of all surpluses, so nothing of the seed is gone exactly when these total at least zero |
| Trading.SeedIsKept | contracts/ctf-math/src/lib.rs:73-91 | In every run whose running surplus is never negative nobody is in debt, and while open: product at least the seed squared, supply at least the seed, fee inside its configured band |
| Trading.SellProductLoss | contracts/ctf-math/src/lib.rs:60-66 | What a sell can cost the product at most, in terms of the root it computes |
| Trading.LargeFeeCovers | contracts/ctf-math/src/lib.rs:68-71 | A fee large enough against the quoted reserves covers the rounding of any buy or sell |
| Trading.CoveringRunKeepsSeed | contracts/ctf-math/src/lib.rs:73-91 | The same in every run each of whose trades covers its own rounding |
| Shortfalls.SupplyFallsBelowSeed | contracts/ctf-math/src/lib.rs:80-85 | The unconditional form of that promise is false: a run of three trades from a seed of 100 ends with a supply of 99 |
| Shortfalls.RoundingErodesSeed | contracts/ctf-math/src/lib.rs:80-85 | From every seed there is a run of trades without fees that ends, with everybody unwound, in any supply from two up to the seed |
| Shortfalls.RunIntoDebt | contracts/market/src/lib.rs:496-526 | Balances can become negative: a run of 288 calls from a seed of 100 ends with a balance of -1, and the last buy lowers the price of the side it buys |
| Shortfalls.DebtStarves | contracts/market/src/lib.rs:721-779 | Such a debt can starve a claim: when that run settles, the treasury's eight winning shares face seven units of collateral and its redemption is refused; after it sends the debtor one share the other seven are paid |
| Trading.BuyThenSell | contracts/market/src/lib.rs:477-593 | Buying and selling everything bought returns at most two units over the price paid, and nothing over it if the buy covered its rounding |
| Trading.TradesMovePrice | contracts/market/src/lib.rs:800-808 | Buying a side keeps its quoted price at least as high if and only if the buy's quote, against the price in force, says so; selling it never raises the price; no other call moves the quotes |
| Trading.BuyMovesOdds | contracts/market/src/lib.rs:496-526 | Whether a buy shortens the odds of the side bought, before they are rounded to a price, is decided by a condition on its quote, in both directions; a fee of at most the whole amount or a refusal of negative output rules it out |
| Trading.PricesSum | contracts/market/src/lib.rs:800-808 | While open both quotes exist, lie in 0..10000 and sum to 10000 |
| Trading.BuySucceedsIff | contracts/market/src/lib.rs:496-523 | From a debt-free open state a buy is refused only by a zero divisor, the depth guard, the slippage floor or missing collateral: the internal debit cannot fail, and a fee of at most the whole amount excludes the zero divisor |
| Trading.SellSucceedsIff | contracts/market/src/lib.rs:557-576 | A sell of held shares is refused only by the depth guard, a zero payout or the slippage floor: the debit cannot fail and the contract can always pay |
| Trading.MergeUndoesSplit | contracts/market/src/lib.rs:425-472 | Merging what was just split restores the entire state, collateral included |
| Trading.TransferBack | contracts/market/src/lib.rs:596-613 | Sending shares back restores the entire state |
| Trading.SupplyPositive | contracts/market/src/lib.rs:800-818 | While open and debt-free the supply is positive and bounds both reserves, so the fee is always defined |
| Redemption.ClosesOnce | contracts/market/src/lib.rs:616-718 | An open market leaves Open by exactly one successful settle or cancel, ever |
| Redemption.TradesPrecedeClosing | contracts/market/src/lib.rs:477-718 | In any run, whatever the clock readings, every successful trade comes before the settle or cancel that closes the market, with the expiry between their clock readings and the grace period before a cancel |
| Redemption.RedeemsFollowClosing | contracts/market/src/lib.rs:721-738 | ... and every successful redemption comes after it |
| Redemption.FinalRun | contracts/market/src/lib.rs:616-779 | After closing, status, price and pools are fixed over every further run and the supply never grows |
| Redemption.FinalStep | contracts/market/src/lib.rs:721-779 | After closing, the supply drops exactly at successful redemptions |
| Redemption.SettleRespectsLegs | contracts/market/src/lib.rs:651-684 | The outcome follows the strike inclusively and cannot contradict any configured oracle that is clear of the strike by its tolerance |
| Redemption.ResolvedByOracles | contracts/market/src/lib.rs:616-695 | Every resolved state, however late, goes back to one settle after expiry whose signed price, positive and dated around expiry, is the final price and decides the outcome, and for which every configured oracle's answer was within its age limit, in the decimals of initialization and within tolerance |
| Redemption.AgreementSettles | contracts/market/src/lib.rs:616-695 | Conversely, after any run that left the market open, a call after expiry with such a price and such answers settles it at that price |
| Redemption.LegAgrees | contracts/ctf-math/src/lib.rs:235-265 | An accepted corroboration puts the reference on the oracle's side of any strike outside the tolerance |
| Redemption.ReachableRedeemIff | contracts/market/src/lib.rs:721-779 | In every reachable final state, debts or not, a redemption succeeds exactly when there is something to pay and the supply plus donations covers it, and pays exactly that |
| Redemption.ReachablePaidIff | contracts/market/src/lib.rs:28-32 | In every reachable final state, in whatever order everybody with a claim comes, all are paid if and only if the positive claims together are at most the supply plus donations; with debt-free buys all are paid |
| Redemption.EverybodyPaidIff | contracts/market/src/lib.rs:721-779 | The same from any final state, against the collateral the contract holds |
| Redemption.AllPaidIsRun | contracts/market/src/lib.rs:721-779 | A queue in which all are paid is a run each of whose calls succeeds where it is made |
| Redemption.NobodyIsStarved | contracts/market/src/lib.rs:721-779 | In every final state reachable with debt-free buys, a redemption succeeds exactly when there is something to pay, and pays exactly that |
| Redemption.OrderIndependent | contracts/market/src/lib.rs:721-779 | Any two orders of the same redemptions end in the same state |
| Redemption.QueueIsRun | contracts/market/src/lib.rs:721-779 | The queues of the order and drain theorems are runs of the state machine |
| Redemption.RunsOfRedeemsAgree | contracts/market/src/lib.rs:721-779 | Two runs of redemption calls by the same people, in any order and at any times, reach the same state |
| Redemption.RedeemAllEffect | contracts/market/src/lib.rs:721-779 | In any queue of redemptions a holder is paid the payout as of the start, once, and keeps no payable position |
| Redemption.ReachableResolvedDrain | contracts/market/src/lib.rs:721-779 | From every resolved state reachable with debt-free buys, whatever transfers came before, the payouts of all outside winners total exactly the supply, less what was sent to the contract itself |
| Redemption.ResolvedDrain | contracts/market/src/lib.rs:727-738 | The same from any state that keeps the books |
| Redemption.CancelledDrain | contracts/market/src/lib.rs:739-763 | After everyone with two shares has redeemed a cancelled market, in any order, twice the supply left is the number of odd redemptions before, plus the odd holders, plus the contract's own shares |
| Redemption.CancelledDrainsToZeroIff | README.md:187-190 | Payouts add up to the supply exactly when no redemption was odd, no holder's total is odd and the contract holds no shares |
| Redemption.ReachableCancelledDrain | contracts/market/src/lib.rs:721-779 | Both of every cancelled state reachable with debt-free buys, with transfers and redemptions interleaved in any way before it; the odd redemptions are those of the run |
| Redemption.LeastRemainder | contracts/market/src/lib.rs:596-779 | From every cancelled state reachable with debt-free buys, the least supply that any further calls can bring about, transfers included, is half of the odd redemptions so far and the contract's own shares, rounded up: no run goes below it and some run attains it |
| Shortfalls.OddSharesStayBehind | README.md:187-190 | A run from initialization, in which everybody redeems, to a state with one unit left in which every redemption is refused; only after one of the two odd holders sends the other a share is it paid out |
| Redemption.ReachableDrain | contracts/market/src/lib.rs:697-779 | From every open state reachable with debt-free buys, past expiry and grace: cancel succeeds, every holder is paid half of all shares held, in any order, and the remainder is exact |
| Redemption.TreasuryRecoversSeed | contracts/market/src/lib.rs:699-779 | In every run whose running surplus is never negative, cancelling pays the treasury at least the seed |
| CtfMath.SellOutSolves | contracts/ctf-math/src/lib.rs:44-66 | The payout solves its quadratic to within half a unit, lies between zero and both the shares sold and the reserve, never meets the clamp, and changes the product by at most half the root |
| CtfMath.SellOutIff | contracts/ctf-math/src/lib.rs:60-66 | It is the only integer that does |
| CtfMath.SellOutMonotone | contracts/ctf-math/src/lib.rs:60-66 | Selling more never pays less |
| CtfMath.SellOutNothing | contracts/ctf-math/src/lib.rs:60-66 | A sale whose fee eats the whole amount pays nothing |
| CtfMath.CpmmOutIsCeiling | contracts/ctf-math/src/lib.rs:21-28 | The swap output is the exact ceiling of the ideal output |
| CtfMath.CpmmOutMonotone | contracts/ctf-math/src/lib.rs:23-28 | More in never gives less out |
| CtfMath.CpmmOutProduct | contracts/ctf-math/src/lib.rs:23-28 | The product after a swap is the old one, less the division's remainder, plus the fee times the new reserve |
| CtfMath.RoundTrip | contracts/ctf-math/src/lib.rs:23-66 | Buying and selling back on the formulas returns at most two units more, none if the product did not fall |
| CtfMath.RoundTripGainsTwo | contracts/ctf-math/src/lib.rs:23-66 | The two units are attained |
| CtfMath.FeeInBand | contracts/ctf-math/src/lib.rs:73-91 | The fee is within its band while the supply is at least the seed, equals the base at the seed, and is at most the whole while the supply is at least a tenth of it |
| CtfMath.FeeFallsWithSupply | contracts/ctf-math/src/lib.rs:87-91 | The fee never rises with the supply as long as the curve at the smaller supply fits in 32 bits, as it does from a tenth of the seed on |
| CtfMath.CastRaisesFee | contracts/ctf-math/src/lib.rs:87-91 | Without that the cast can make the fee rise with the supply: a pair of supplies for which it does |
| Shortfalls.SplitRaisesFee | contracts/ctf-math/src/lib.rs:87-91 | A run from initialization that reaches the first of these supplies, where splitting one unit more raises the fee from 2.04 percent to 286331 times the whole |
| CtfMath.ApplyFeeBounds | contracts/ctf-math/src/lib.rs:68-71 | The withheld fee is the floor of its share and at most the amount for rates up to the whole |
| FixedWidth.Isqrt | contracts/ctf-math/src/lib.rs:30-42 | The Newton loop terminates without overflow on every 128-bit input below the maximum and returns the floor of the square root |
| FixedWidth.CpmmSellOut128 | contracts/ctf-math/src/lib.rs:60-66 | The sell formula in 128 bits: no intermediate value overflows for reserves up to 2^61 and an input of either sign up to 2^61 |
| FixedWidth.CpmmOut128 | contracts/ctf-math/src/lib.rs:23-28 | The swap formula in 128 bits, likewise for an input down to -2^80; only a zero divisor is excluded |
| FixedWidth.Buy128 | contracts/market/src/lib.rs:496-526 | Fee, cast, quote, guard and all numbers written by a buy fit in 128 bits and equal the unbounded ones when supply, seed and amount are at most 2^61, whatever the fee; the only trap is a zero divisor |
| FixedWidth.Sell128 | contracts/market/src/lib.rs:561-585 | The same for a sell of held shares, which never traps |
| FixedWidth.FeeOnShares | contracts/ctf-math/src/lib.rs:68-91 | On an amount of at most the supply the fee is at most the amount plus a tenth of the seed, however small the supply and however large the fee rate |
| FixedWidth.SupplyBoundsEverything | contracts/market/src/lib.rs:425-593 | The supply alone bounds both reserves and every balance |
| Oracle.RoundToCentsNearest | contracts/ctf-math/src/lib.rs:105-119 | The corroborating price in cents is within half a cent of the raw price |
| Oracle.RoundToCentsOdd | contracts/ctf-math/src/lib.rs:111-119 | Conversion is odd |
| Oracle.RoundToCentsMonotone | contracts/ctf-math/src/lib.rs:111-119 | Conversion is monotone |
| Oracle.RoundToCentsIff | contracts/ctf-math/src/lib.rs:105-119 | The converted price is the only integer within half a cent, a half going away from zero |
| Oracle.CorroborateIff | contracts/ctf-math/src/lib.rs:235-265 | An answer is accepted if and only if it exists, is no older than the limit, is in the 2 to 30 decimals of initialization and is within tolerance, a price of zero cents counting as entirely off; and what is wrong with it otherwise |
| Oracle.FeedCentsIff | contracts/market/src/lib.rs:624-651 | An update gives a price if and only if its first entry for the feed carries it, positive and dated within 300 seconds of the anchor on either side; and when the feed counts as missing |
| Oracle.FeedVerdict | contracts/market/src/lib.rs:631-651 | Which of invalid, too old, too new and accepted the first entry of the feed is, by its own data |
| Oracle.DivergenceIff | contracts/ctf-math/src/lib.rs:255-263 | The tolerance test in exact form, without its division |
| Oracle.ToCentsTruncates | contracts/ctf-math/src/lib.rs:95-103 | The reference price in cents is exact upward and drops only the fraction downward, for prices of either sign; it traps exactly when the power or the product leaves 128 bits |
| Oracle.FindFeedFirst | contracts/market/src/lib.rs:631-635 | The feed used is the first one with the configured id |
| Oracle.FeedCentsIsFresh | contracts/market/src/lib.rs:636-651 | An accepted price is positive and dated within 300 seconds of its anchor on either side |
| Storage.Desk.Split | contracts/market/src/lib.rs:425-447 | The handler's storage writes and result are those of the transition that SplitDoes determines |
| Storage.Desk.Merge | contracts/market/src/lib.rs:450-472 | Likewise for MergeDoes, with both debits before the payment |
| Storage.Desk.Buy | contracts/perpetual/src/lib.rs:434-474 | Guards in order, then a mint of both sides, a debit of the unwanted one and the swap: net, the transition that BuySucceeds, BuyDoes and BuyRefusal determine |
| Storage.Desk.Sell | contracts/perpetual/src/lib.rs:478-518 | Guards in order, then debit, both reserves, payment and supply: the transition that SellSucceeds, SellDoes and SellRefusal determine |
| MarketContract.Contract.Buy | contracts/market/src/lib.rs:477-534 | The market's buy: the same behind the trading window, whose error comes after the caller's and the status's |
| MarketContract.Contract.Sell | contracts/market/src/lib.rs:539-593 | Likewise |
| Storage.Desk.Transfer | contracts/market/src/lib.rs:596-613 | A debit and a credit, also between equal addresses: the transition that TransferDoes determines |
| MarketContract.Contract.Settle | contracts/market/src/lib.rs:616-695 | Verification, then status, price and the pools' shares to the treasury: the transition that SettleDoes and SettleRefusal determine |
| MarketContract.Contract.Cancel | contracts/market/src/lib.rs:699-718 | The pools' shares to the treasury after the grace period |
| MarketContract.Contract.Redeem | contracts/market/src/lib.rs:721-779 | The position is wiped first, then an empty payout is refused, then the rest is paid |
| MarketContract.Contract.GetPrice | contracts/market/src/lib.rs:800-808 | The quotes of the state |
| MarketContract.Contract.Initialize | contracts/market/src/lib.rs:337-422 | A second initialization is refused; the parameters, then both oracles' update rhythm and decimals are checked in order; the seed is pulled from the admin, and pools and supply are set to it: the initial state, or the same first error |
| MarketContract.Contract.Invoke | contracts/market/src/lib.rs:425-779 | One invocation is one step of the state machine: a failing call is reverted as a whole |
| MarketContract.Contract.InvokeAll | contracts/market/src/lib.rs:425-779 | Any sequence of invocations leaves the storage that the state machine reaches |
| Simulation.Lockstep | contracts/perpetual/src/lib.rs:382-659 | Where the clock gates nothing, market and perpetual calls fail with the same error or return the same value in corresponding states |
| Simulation.MarketRunIsPerpetualRun | contracts/perpetual/src/lib.rs:3-9 | Every market run without a settlement is, call by call, a perpetual run with equal books and return values |
| Simulation.PerpetualRunIsMarketRun | contracts/perpetual/src/lib.rs:3-9 | Every perpetual run comes from a market run with equal books and return values |
| Simulation.CheckpointIsStutter | contracts/perpetual/src/lib.rs:534-592 | A checkpoint writes nothing but the recorded price |
| Simulation.CheckpointsChangeNothing | contracts/perpetual/src/lib.rs:534-592 | Dropping or inserting checkpoints anywhere changes no return value and nothing but the recorded price |
| PerpetualCalls.CheckpointDoes | contracts/perpetual/src/lib.rs:541-592 | A checkpoint succeeds if and only if a price oracle is configured, the update carries a positive price of its feed dated within 300 seconds of the call, and both oracles' answers are within their age limits, in the decimals of initialization and within tolerance; that price and the time of the call are all that is written |
| PerpetualCalls.CheckpointRefusal | contracts/perpetual/src/lib.rs:541-585 | Which error a refused checkpoint gives: the first thing wrong with it, each oracle's fault by its own name |
| PerpetualCalls.RecordedPrice | contracts/perpetual/src/lib.rs:541-592 | The recorded price of every reachable state is the one of the last checkpoint call that qualified, dated with it, and zero exactly as long as none did |
| PerpetualCalls.TerminateDoes | contracts/perpetual/src/lib.rs:602-626 | Only the admin can terminate, and only once; the pools' shares become the treasury's and nothing else moves; and the error otherwise |
| PerpetualCalls.RedeemDoes | contracts/perpetual/src/lib.rs:637-659 | A redemption succeeds if and only if the contract is terminated and half of the shares of somebody other than the contract, rounded down, is at least one unit and covered; its whole effect, and the error otherwise |
| PerpetualCalls.InitializeDoes | contracts/perpetual/src/lib.rs:310-388 | The contract starts if and only if fees, seed and the optional price oracle pass and the admin can pay the seed; the initial state, and the first error otherwise |
| Simulation.PerpetualIsBacked | contracts/perpetual/src/lib.rs:382-659 | Every reachable perpetual state keeps the market's books, with the run's own donations and odd redemptions as the exact tallies; with debt-free buys no balance is negative |
| Simulation.PerpetualSeedPromiseIff | contracts/perpetual/src/lib.rs:382-626 | The fee curve's promise holds of exactly the runs that make no merge and no sell that its quote forbids |
| Simulation.PerpetualRedeemIff | contracts/perpetual/src/lib.rs:628-659 | After terminate, in every reachable state, debts or not, a redemption succeeds exactly when half of all shares held is at least one unit and the supply plus donations covers it, and pays it |
| Simulation.PerpetualStarvesNobody | contracts/perpetual/src/lib.rs:628-659 | After terminate, in every state reachable with debt-free buys, a redemption succeeds exactly for holders of two shares or more and pays half of them |
| Simulation.PerpetualDrain | contracts/perpetual/src/lib.rs:594-659 | From every such state a queue of redemption calls pays each holder half of all shares held; once everyone with two shares was in it, twice the supply left is the odd redemptions of the run, plus the odd holders, plus the contract's own shares |
| Simulation.PerpetualOrderIndependent | contracts/perpetual/src/lib.rs:628-659 | From every such state two permuted queues of redemption calls reach the same state |
| Simulation.PerpetualRecoversSeed | contracts/perpetual/src/lib.rs:594-659 | From every reachable open state whose running surplus was never negative the admin can terminate, and the treasury then recovers at least the seed |
| Simulation.ImageRun | contracts/perpetual/src/lib.rs:3-9 | The market run that a perpetual run stands for reaches the image of its state, with equal donations, odd redemptions and surpluses, and is debt-free exactly when it is |
| Simulation.SameQuotes | contracts/perpetual/src/lib.rs:676-691 | Both contracts quote the same fee and prices |
| PerpetualContract.Contract.Initialize | contracts/perpetual/src/lib.rs:310-388 | A second initialization is refused; the parameters, then feed, update rhythm and decimals of both oracles, if a price oracle is given, are checked in order; the seed is pulled from the admin: the initial state, or the same first error |
| PerpetualContract.Contract.RecordPriceCheckpoint | contracts/perpetual/src/lib.rs:541-592 | May write only the two price fields, and writes what CheckpointDoes and CheckpointRefusal determine |
| PerpetualContract.Contract.Terminate | contracts/perpetual/src/lib.rs:602-626 | Identity check first, then the pools' shares to the treasury |
| PerpetualContract.Contract.Redeem | contracts/perpetual/src/lib.rs:637-659 | Half a unit per share after termination |
| PerpetualContract.Contract.Invoke | contracts/perpetual/src/lib.rs:382-659 | One invocation is one step, reverted as a whole if it fails |
| Base64Url.Encode | contracts/smart-wallet/src/base64_url.rs:9-39 | The loop fills exactly the front of the buffer with the encoding and leaves the rest alone |
| Base64Url.DecodeEncode | contracts/smart-wallet/src/base64_url.rs:9-39 | Decoding an encoding gives back every byte string |
| Base64Url.EncodeDecode | contracts/smart-wallet/src/base64_url.rs:9-39 | Whatever the strict decoder accepts is the encoding of its result |
| Base64Url.ValueOfSymbol | contracts/smart-wallet/src/base64_url.rs:7-7 | The alphabet string agrees with the ranges of table 2 of RFC 4648 |
| Base64Url.WordIsGroup | contracts/smart-wallet/src/base64_url.rs:14-18 | The shifts and masks of the packed word are the format's six-bit groups |
| Base64Url.KnownVectors | contracts/smart-wallet/src/base64_url.rs:53-59 | Two encodings written out, one of them using the last two characters of the alphabet |
| Base64Url.ChallengeBindsPayload | contracts/smart-wallet/src/lib.rs:160-172 | A challenge equals a payload's encoding exactly when it decodes to it, so it matches at most one, and 32 bytes take 43 characters |
| Base64Url.CheckChallenge | contracts/smart-wallet/src/lib.rs:167-172 | The comparison with a 43-character buffer that the encoder fills accepts exactly the challenges that decode to the payload |

## Left out

- NotInitialized: calls before initialization have no state to start from and are not modelled; what the oracles answer when they are probed at initialization is part of the configuration.
- Buy128: is stated for supply, seed and amount up to 2^61, because the source gives no bound and larger values can overflow, which reverts the call; Sell128 likewise.
- SeedIsKept: assumes that the running surplus is never negative, because the unconditional promise is false; SeedPromiseIff is exact for the supply, but a run it admits need not keep the product.
- NobodyIsStarved: assumes debt-free buys, because DebtStarves is a run in which a claim is starved (ReachableRedeemIff has no such hypothesis), and non-negative collateral balances at initialization; ReachableDrain, ReachableResolvedDrain, ReachableCancelledDrain, LeastRemainder, PerpetualStarvesNobody, PerpetualDrain and PerpetualOrderIndependent assume the same.
- BuyThenSell: assumes both fees are at most the whole amount, as the fee curve guarantees while the supply is at least a tenth of the seed.
- FeeFallsWithSupply: assumes that the curve fits in 32 bits at the smaller supply, because CastRaisesFee shows that it can fail otherwise; FeeFallsIff is the exact condition, in terms of the curve before the cast.
- Settle: takes the signature-checked price update and each oracle's answer as inputs; the Pyth Lazer payload format, its signature check and the cross-contract calls are not part of this model.
- Signatures: a call by anyone but the contract itself counts as authorized.
- Storage lifetime, events, error numbers and the XDR encoding of types: host plumbing without effect on balances.
- Reads that return stored fields unchanged (`get_market`, `get_position`, `get_redstone_oracle`, `get_price_oracle`).
- WebAuthn signature verification, SHA-256 and JSON parsing in the smart wallet: host or library code.
- The vault, the smart wallet factory and both mocks: thin wrappers that would only add easy members.
