/** From closing to the last redemption: the market closes once, settles consistently with its
    oracles, and then pays everybody, whatever the order. */
module Redemption {
  import opened Arithmetic
  import opened CtfMath
  import opened Ledger
  import opened Market
  import opened Oracle
  import opened Solvency
  import opened Trading
  import opened Types
  import X = Exchange

  // ----- lifecycle

  function Closing(s: State, e: Event): nat {
    if Exec(s, e).Ok? && (e.call.Settle? || e.call.Cancel?) then 1 else 0
  }

  function Closings(s: State, es: seq<Event>): nat {
    if es == [] then 0
    else Closings(s, es[..|es| - 1]) + Closing(Run(s, es[..|es| - 1]), es[|es| - 1])
  }

  /** A final market keeps its status and price, and only a redemption lowers its supply. */
  lemma FinalStep(s: State, e: Event)
    requires s.status != Open
    ensures var t := Step(s, e);
            && t.status == s.status && t.finalPrice == s.finalPrice
            && t.book.poolYes == s.book.poolYes && t.book.poolNo == s.book.poolNo
            && t.book.totalSupply <= s.book.totalSupply
            && (t.book.totalSupply < s.book.totalSupply <==> Exec(s, e).Ok? && e.call.Redeem?)
    ensures Closing(s, e) == 0
  {
    hide ExecBuy, ExecSell, ExecSettle, Get, Set, Move;
    TradingNeedsOpen(s, e);
  }

  lemma TradingNeedsOpen(s: State, e: Event)
    requires s.status != Open
    ensures (e.call.Buy? || e.call.Sell? || e.call.Settle?) ==> Exec(s, e).Err?
  {
    hide CpmmOut, CpmmSellOut, ApplyFee, EffectiveFeeBps, SettlementCents;
  }

  lemma {:induction false} FinalRun(s: State, es: seq<Event>)
    requires s.status != Open
    ensures var t := Run(s, es);
            && t.status == s.status && t.finalPrice == s.finalPrice
            && t.book.poolYes == s.book.poolYes && t.book.poolNo == s.book.poolNo
            && t.book.totalSupply <= s.book.totalSupply
    ensures Closings(s, es) == 0
  {
    hide Step, Exec, Closing;
    if es != [] {
      FinalRun(s, es[..|es| - 1]);
      FinalStep(Run(s, es[..|es| - 1]), es[|es| - 1]);
    }
  }

  /** An open market leaves Open by exactly one successful settle or cancel, ever. */
  lemma {:induction false} ClosesOnce(s: State, es: seq<Event>)
    requires s.status == Open
    ensures Closings(s, es) <= 1
    ensures Run(s, es).status == Open <==> Closings(s, es) == 0
  {
    hide Step, Exec, Closing;
    if es != [] {
      var before, e := es[..|es| - 1], es[|es| - 1];
      ClosesOnce(s, before);
      if Run(s, before).status == Open {
        OpenStep(Run(s, before), e);
      } else {
        FinalStep(Run(s, before), e);
      }
    }
  }

  lemma OpenStep(s: State, e: Event)
    requires s.status == Open
    ensures Step(s, e).status == Open <==> Closing(s, e) == 0
    ensures Closing(s, e) <= 1
  {
    hide CpmmOut, CpmmSellOut, ApplyFee, EffectiveFeeBps, SettlementCents, Get, Set, Move;
  }

  /** Trading, settling and cancelling happen in windows of their own: a trade only before expiry,
      a settlement only from expiry on, a cancellation exactly from the end of the grace period. */
  lemma TimeWindows(s: State, e: Event)
    ensures (e.call.Buy? || e.call.Sell?) && Exec(s, e).Ok? ==> s.status == Open && e.now < s.cfg.expiry
    ensures e.call.Settle? && Exec(s, e).Ok? ==> s.status == Open && s.cfg.expiry <= e.now
    ensures e.call.Cancel? ==>
              (Exec(s, e).Ok? <==> s.status == Open && s.cfg.expiry + s.cfg.gracePeriod <= e.now)
  {
    hide CpmmOut, CpmmSellOut, ApplyFee, EffectiveFeeBps, SettlementCents;
  }

  ghost predicate ClosesAt(s: State, es: seq<Event>, j: int) {
    0 <= j < |es| && Closing(Run(s, es[..j]), es[j]) == 1
  }

  lemma {:induction false} ConfigKept(s: State, es: seq<Event>)
    ensures Run(s, es).cfg == s.cfg
  {
    hide Step;
    if es != [] {
      ConfigKept(s, es[..|es| - 1]);
      ConfigFixed(Run(s, es[..|es| - 1]), es[|es| - 1]);
    }
  }

  lemma RunSplit(s: State, es: seq<Event>, j: nat, i: nat)
    requires j < i <= |es|
    ensures Run(s, es[..i]) == Run(Step(Run(s, es[..j]), es[j]), es[j + 1..i])
  {
    hide Run, Step;
    assert es[..i] == es[..j] + [es[j]] + es[j + 1..i];
    RunConcat(s, es[..j] + [es[j]], es[j + 1..i]);
    RunSnoc(s, es[..j], es[j]);
  }

  /** Once a run has closed the market, it stays closed. */
  lemma ClosedAfter(s: State, es: seq<Event>, j: nat, i: nat)
    requires ClosesAt(s, es, j) && j < i <= |es|
    ensures Run(s, es[..j]).status == Open
    ensures var t := Step(Run(s, es[..j]), es[j]);
            && t.status != Open && Run(s, es[..i]).status == t.status && Run(s, es[..i]).finalPrice == t.finalPrice
  {
    hide Run, Step, Exec, Closing;
    var before, t := Run(s, es[..j]), Step(Run(s, es[..j]), es[j]);
    if before.status == Open {
      OpenStep(before, es[j]);
    } else {
      FinalStep(before, es[j]);
    }
    RunSplit(s, es, j, i);
    FinalRun(t, es[j + 1..i]);
  }

  /** In any run, whatever the clock readings, every trade comes before the closing call, and its
      clock read less than the expiry while that of the closing call did not. */
  lemma TradesPrecedeClosing(s: State, es: seq<Event>, i: nat, j: nat)
    requires i < |es| && (es[i].call.Buy? || es[i].call.Sell?) && Exec(Run(s, es[..i]), es[i]).Ok?
    requires ClosesAt(s, es, j)
    ensures i < j
    ensures es[i].now < s.cfg.expiry <= es[j].now
    ensures es[j].call.Cancel? ==> s.cfg.expiry + s.cfg.gracePeriod <= es[j].now
  {
    hide Run, Step, Exec;
    TimeWindows(Run(s, es[..i]), es[i]);
    TimeWindows(Run(s, es[..j]), es[j]);
    ConfigKept(s, es[..i]);
    ConfigKept(s, es[..j]);
    if j < i {
      ClosedAfter(s, es, j, i);
    }
  }

  /** The closing call of a run that ends closed, and the status and price it left for good. */
  lemma {:induction false} ClosingCall(s: State, es: seq<Event>)
    requires s.status == Open && Run(s, es).status != Open
    ensures exists j :: ClosesAt(s, es, j) && Step(Run(s, es[..j]), es[j]).status == Run(s, es).status
                        && Step(Run(s, es[..j]), es[j]).finalPrice == Run(s, es).finalPrice
  {
    hide Step, Exec, Closing, Run;
    if es == [] {
      RunNothing(s);
    }
    var n := |es| - 1;
    var before, e := es[..n], es[n];
    assert es == before + [e];
    RunSnoc(s, before, e);
    if Run(s, before).status == Open {
      OpenStep(Run(s, before), e);
      assert ClosesAt(s, es, n);
    } else {
      ClosingCall(s, before);
      var j :| ClosesAt(s, before, j) && Step(Run(s, before[..j]), before[j]).status == Run(s, before).status
               && Step(Run(s, before[..j]), before[j]).finalPrice == Run(s, before).finalPrice;
      FinalStep(Run(s, before), e);
      assert before[..j] == es[..j];
      assert ClosesAt(s, es, j);
    }
  }

  /** ... and every redemption comes after it. */
  lemma RedeemsFollowClosing(s: State, es: seq<Event>, k: nat)
    requires s.status == Open && k < |es|
    requires es[k].call.Redeem? && Exec(Run(s, es[..k]), es[k]).Ok?
    ensures exists j :: j < k && ClosesAt(s, es, j)
  {
    hide Run, Step, Closing, X.Redeem, Payout;
    ClosingCall(s, es[..k]);
    var j :| ClosesAt(s, es[..k], j);
    assert es[..k][..j] == es[..j];
    assert ClosesAt(s, es, j);
  }

  // ----- settlement

  /** Settlement succeeds exactly when the market is open and expired, the signed update carries a
      fresh positive price of the configured feed, and every configured oracle corroborates it. */
  lemma SettleIff(s: State, e: Event)
    requires e.call.Settle?
    ensures Exec(s, e).Ok? <==>
              && s.status == Open && s.cfg.expiry <= e.now
              && FeedCents(e.call.update, s.cfg.feedId, s.cfg.expiry).Ok?
              && var cents := FeedCents(e.call.update, s.cfg.feedId, s.cfg.expiry).value;
                 && Corroborate(s.cfg.reflector, e.call.reflector, e.now, cents).None?
                 && (s.cfg.redstone.Some? ==>
                       Corroborate(s.cfg.redstone.value, e.call.redstone, e.now, cents).None?)
    ensures Exec(s, e).Ok? ==> FeedCents(e.call.update, s.cfg.feedId, s.cfg.expiry) == Ok(Step(s, e).finalPrice)
  {
    hide FeedCents, Corroborate, Get, Set;
  }

  /** A corroborating oracle that accepts a price cannot be on the other side of the strike by
      more than its tolerance. */
  lemma LegAgrees(leg: Leg, reading: Reading, now: nat, reference: int, strike: int)
    requires Corroborate(leg, reading, now, reference).None?
    ensures reading.last.Some? && 2 <= reading.decimals
    ensures var cents := RoundToCents(reading.last.value.price, reading.decimals);
            0 < cents ==>
              && (10_000 * strike <= cents * (9_999 - leg.toleranceBps) ==> strike <= reference)
              && (cents * (10_001 + leg.toleranceBps) <= 10_000 * strike ==> reference < strike)
  {
    hide RoundToCents, DivergenceBps;
    var cents, tol := RoundToCents(reading.last.value.price, reading.decimals), leg.toleranceBps;
    if 0 < cents {
      DivergenceIff(reference, cents, tol);
      assert cents * (9_999 - tol) == 10_000 * cents - (tol + 1) * cents;
      assert cents * (10_001 + tol) == 10_000 * cents + (tol + 1) * cents;
    }
  }

  /** A leg whose price is clear of the strike by its tolerance decides the outcome. */
  ghost predicate LegRespected(leg: Leg, reading: Reading, strike: int, status: Status) {
    && reading.last.Some? && 2 <= reading.decimals
    && var cents := RoundToCents(reading.last.value.price, reading.decimals);
       0 < cents ==>
         && (10_000 * strike <= cents * (9_999 - leg.toleranceBps) ==> status == ResolvedYes)
         && (cents * (10_001 + leg.toleranceBps) <= 10_000 * strike ==> status == ResolvedNo)
  }

  /** Settlement never contradicts a configured oracle, and follows the strike inclusively. */
  lemma SettleRespectsLegs(s: State, e: Event)
    requires e.call.Settle? && Exec(s, e).Ok?
    ensures var t := Step(s, e);
            && (t.status == ResolvedYes <==> s.cfg.strikePrice <= t.finalPrice)
            && (t.status == ResolvedNo <==> t.finalPrice < s.cfg.strikePrice)
            && LegRespected(s.cfg.reflector, e.call.reflector, s.cfg.strikePrice, t.status)
            && (s.cfg.redstone.Some? ==>
                  LegRespected(s.cfg.redstone.value, e.call.redstone, s.cfg.strikePrice, t.status))
  {
    hide RoundToCents, DivergenceBps, Corroborate, FeedCents;
    SettleIff(s, e);
    var price := FeedCents(e.call.update, s.cfg.feedId, s.cfg.expiry).value;
    LegAgrees(s.cfg.reflector, e.call.reflector, e.now, price, s.cfg.strikePrice);
    if s.cfg.redstone.Some? {
      LegAgrees(s.cfg.redstone.value, e.call.redstone, e.now, price, s.cfg.strikePrice);
    }
  }

  /** The call that a resolution came from: a settle after expiry whose signed price, dated around
      expiry, became the final one, with a fresh answer of every configured oracle, in its pinned
      decimals, within tolerance of it, and none contradicting the outcome. */
  ghost predicate ResolvedAt(s: State, es: seq<Event>, j: int) {
    && ClosesAt(s, es, j) && es[j].call.Settle? && s.cfg.expiry <= es[j].now
    && var (t, call) := (Run(s, es), es[j].call);
       && SignedPrice(call.update, s.cfg.feedId, s.cfg.expiry, t.finalPrice)
       && Corroborates(s.cfg.reflector, call.reflector, es[j].now, t.finalPrice)
       && LegRespected(s.cfg.reflector, call.reflector, s.cfg.strikePrice, t.status)
       && (s.cfg.redstone.Some? ==>
             && Corroborates(s.cfg.redstone.value, call.redstone, es[j].now, t.finalPrice)
             && LegRespected(s.cfg.redstone.value, call.redstone, s.cfg.strikePrice, t.status))
  }

  /** Every resolved state of every run, however long after, goes back to such a settlement, and
      its status is the side of the strike that the final price lies on. */
  lemma ResolvedByOracles(s: State, es: seq<Event>)
    requires s.status == Open && (Run(s, es).status == ResolvedYes || Run(s, es).status == ResolvedNo)
    ensures exists j :: ResolvedAt(s, es, j)
    ensures Run(s, es).status == ResolvedYes <==> s.cfg.strikePrice <= Run(s, es).finalPrice
  {
    hide Run, Step, Exec, LegRespected, FeedCents, Corroborate, SignedPrice, Corroborates;
    ClosingCall(s, es);
    var j :| ClosesAt(s, es, j) && Step(Run(s, es[..j]), es[j]).status == Run(s, es).status
             && Step(Run(s, es[..j]), es[j]).finalPrice == Run(s, es).finalPrice;
    var before, e := Run(s, es[..j]), es[j];
    ConfigKept(s, es[..j]);
    if e.call.Cancel? {
      CancelIsNoResolution(before, e);
    }
    TimeWindows(before, e);
    SettleIff(before, e);
    SettleRespectsLegs(before, e);
    var cents := Run(s, es).finalPrice;
    FeedCentsIff(e.call.update, s.cfg.feedId, s.cfg.expiry, cents);
    CorroborateIff(s.cfg.reflector, e.call.reflector, e.now, cents);
    if s.cfg.redstone.Some? {
      CorroborateIff(s.cfg.redstone.value, e.call.redstone, e.now, cents);
    }
    assert ResolvedAt(s, es, j);
  }

  /** Conversely, whatever happened before: if the market is still open after expiry, such a call
      settles it at that price. */
  lemma AgreementSettles(s: State, es: seq<Event>, e: Event, cents: int)
    requires Run(s, es).status == Open && e.call.Settle? && s.cfg.expiry <= e.now
    requires SignedPrice(e.call.update, s.cfg.feedId, s.cfg.expiry, cents)
    requires Corroborates(s.cfg.reflector, e.call.reflector, e.now, cents)
    requires s.cfg.redstone.Some? ==> Corroborates(s.cfg.redstone.value, e.call.redstone, e.now, cents)
    ensures var t := Run(s, es + [e]);
            && Exec(Run(s, es), e).Ok? && t.finalPrice == cents
            && t.status == if s.cfg.strikePrice <= cents then ResolvedYes else ResolvedNo
  {
    hide Run, Step, Exec, LegRespected, FeedCents, Corroborate, SignedPrice, Corroborates;
    RunSnoc(s, es, e);
    ConfigKept(s, es);
    FeedCentsIff(e.call.update, s.cfg.feedId, s.cfg.expiry, cents);
    CorroborateIff(s.cfg.reflector, e.call.reflector, e.now, cents);
    if s.cfg.redstone.Some? {
      CorroborateIff(s.cfg.redstone.value, e.call.redstone, e.now, cents);
    }
    SettleIff(Run(s, es), e);
    SettleRespectsLegs(Run(s, es), e);
    SettleResolves(Run(s, es), e);
  }

  lemma SettleResolves(s: State, e: Event)
    requires e.call.Settle? && Exec(s, e).Ok?
    ensures Step(s, e).status == ResolvedYes || Step(s, e).status == ResolvedNo
  {
    hide SettlementCents, X.Closed;
  }

  lemma CancelIsNoResolution(s: State, e: Event)
    requires e.call.Cancel? && Exec(s, e).Ok?
    ensures Step(s, e).status == Cancelled
  {
    hide X.Closed;
  }

  // ----- every claim is covered

  /** A closed market whose collateral covers every claim that can still be made. */
  ghost predicate Redeemable(s: State) {
    && s.status != Open && NoDebt(s)
    && s.book.totalSupply <= Get(s.book.tokens, s.cfg.self)
    && (s.status == ResolvedYes ==> Sum(s.book.yes) <= s.book.totalSupply)
    && (s.status == ResolvedNo ==> Sum(s.book.no) <= s.book.totalSupply)
    && (s.status == Cancelled ==> Sum(s.book.yes) + Sum(s.book.no) <= 2 * s.book.totalSupply)
  }

  lemma BackedIsRedeemable(s: State, donated: int, odd: nat)
    requires Backed(s, donated, odd) && NoDebt(s) && 0 <= donated && s.status != Open
    ensures Redeemable(s)
  {
    hide Sum;
  }

  lemma PayoutCovered(s: State, user: Address)
    requires Redeemable(s)
    ensures 0 <= Payout(s, user) <= s.book.totalSupply
  {
    hide Sum;
    BalanceAtMostSum(s.book.yes, user);
    BalanceAtMostSum(s.book.no, user);
    NonNegativeAt(s.book.yes, user);
    NonNegativeAt(s.book.no, user);
  }

  /** No redemption is ever starved: it succeeds exactly when there is something to pay. */
  lemma RedeemIff(s: State, user: Address)
    requires Redeemable(s)
    ensures ExecRedeem(s, user).Ok? <==> user != s.cfg.self && 1 <= Payout(s, user)
    ensures ExecRedeem(s, user).Ok? ==>
              ExecRedeem(s, user).value == (Redeemed(s, user, Payout(s, user)), Payout(s, user))
  {
    PayoutCovered(s, user);
    hide NoDebt, Payout, Redeemed, Sum;
  }

  lemma {:induction false} DonationsNonNegative(s: State, es: seq<Event>)
    ensures 0 <= Donations(s, es)
  {
    hide Exec, Run, Donation;
    if es != [] {
      DonationsNonNegative(s, es[..|es| - 1]);
      DonationNonNegative(Run(s, es[..|es| - 1]), es[|es| - 1]);
    }
  }

  lemma DonationNonNegative(s: State, e: Event)
    ensures 0 <= Donation(s, e)
  {
  }

  /** The exact condition in any final state that keeps the books, debts or not: there is something
      to pay and the collateral covers it. */
  lemma CoveredRedeemIff(s: State, user: Address, donated: int, odd: nat)
    requires Backed(s, donated, odd) && s.status != Open
    ensures ExecRedeem(s, user).Ok? <==> user != s.cfg.self && 1 <= Payout(s, user) <= s.book.totalSupply + donated
    ensures ExecRedeem(s, user).Ok? ==>
              ExecRedeem(s, user).value == (Redeemed(s, user, Payout(s, user)), Payout(s, user))
  {
    hide Sum, Payout;
  }

  /** ... hence in every reachable final state, whatever was bought, sent and redeemed before it. */
  lemma ReachableRedeemIff(cfg: Config, now: nat, tokens: Balances, es: seq<Event>, later: nat, user: Address)
    requires Initialize(cfg, now, tokens).Ok?
    requires Run(Initialize(cfg, now, tokens).value, es).status != Open
    ensures var s0 := Initialize(cfg, now, tokens).value;
            var s := Run(s0, es);
            var r := Exec(s, Event(later, Redeem(user)));
            && (r.Ok? <==> user != cfg.self
                           && 1 <= Payout(s, user) <= s.book.totalSupply + Get(tokens, cfg.self) + Donations(s0, es))
            && (r.Ok? ==> r.value.1 == Payout(s, user))
  {
    hide Backed, Run, Exec, ExecRedeem, Payout, Initialize, NoDebt;
    var s0 := Initialize(cfg, now, tokens).value;
    EveryStateIsBacked(cfg, now, tokens, es);
    InitializeBacked(cfg, now, tokens);
    ConfigKept(s0, es);
    CoveredRedeemIff(Run(s0, es), user, Get(tokens, cfg.self) + Donations(s0, es), OddRedeems(s0, es));
    RedeemCall(Run(s0, es), later, user);
  }

  /** As a corollary, in every final state reachable with debt-free buys a holder can redeem exactly
      when there is something to pay. */
  lemma NobodyIsStarved(cfg: Config, now: nat, tokens: Balances, es: seq<Event>, later: nat, user: Address)
    requires Initialize(cfg, now, tokens).Ok? && NonNegative(tokens)
    requires DebtFreeRun(Initialize(cfg, now, tokens).value, es)
    requires Run(Initialize(cfg, now, tokens).value, es).status != Open
    ensures var s := Run(Initialize(cfg, now, tokens).value, es);
            var r := Exec(s, Event(later, Redeem(user)));
            && Redeemable(s)
            && (r.Ok? <==> user != s.cfg.self && 1 <= Payout(s, user))
            && (r.Ok? ==> r.value.1 == Payout(s, user))
  {
    hide Backed, NoDebt, Run, DebtFreeRun, Exec, ExecRedeem, Payout, Redeemable, Initialize;
    var s0 := Initialize(cfg, now, tokens).value;
    EveryStateIsBacked(cfg, now, tokens, es);
    DonationsNonNegative(s0, es);
    NonNegativeAt(tokens, cfg.self);
    InitializeBacked(cfg, now, tokens);
    BackedIsRedeemable(Run(s0, es), Get(tokens, cfg.self) + Donations(s0, es), OddRedeems(s0, es));
    ReachableRedeemIff(cfg, now, tokens, es, later, user);
    PayoutCovered(Run(s0, es), user);
    ConfigKept(s0, es);
  }

  lemma RedeemCall(s: State, now: nat, user: Address)
    ensures Exec(s, Event(now, Redeem(user))) == ExecRedeem(s, user)
  {
    hide ExecRedeem;
  }

  lemma CancelCall(s: State, now: nat)
    requires s.status == Open && s.cfg.expiry + s.cfg.gracePeriod <= now
    ensures Exec(s, Event(now, Cancel)) == Ok((Closed(s, Cancelled, s.finalPrice), 0))
    ensures Step(s, Event(now, Cancel)) == Closed(s, Cancelled, s.finalPrice)
  {
    hide Closed;
  }

  // ----- order does not matter

  function RedeemStep(s: State, user: Address): State {
    var r := ExecRedeem(s, user);
    if r.Ok? then r.value.0 else s
  }

  function RedeemAll(s: State, users: seq<Address>): State
    decreases |users|
  {
    if users == [] then s else RedeemAll(RedeemStep(s, users[0]), users[1..])
  }

  /** The calls `es`, at whatever times, are the redemptions of `users` in that order. */
  ghost predicate IsQueue(es: seq<Event>, users: seq<Address>) {
    |es| == |users| && forall i :: 0 <= i < |es| ==> es[i].call == Redeem(users[i])
  }

  /** A queue of redemptions is a run of the state machine. */
  lemma {:induction false} QueueIsRun(s: State, es: seq<Event>, users: seq<Address>)
    requires IsQueue(es, users)
    ensures Run(s, es) == RedeemAll(s, users)
    decreases |users|
  {
    hide Exec, ExecRedeem, Run;
    if es == [] {
      RunNothing(s);
    } else {
      RedeemCall(s, es[0].now, users[0]);
      assert es[0] == Event(es[0].now, Redeem(users[0]));
      QueueIsRun(Step(s, es[0]), es[1..], users[1..]);
      RunFirst(s, es);
    }
  }

  lemma RunFirst(s: State, es: seq<Event>)
    requires es != []
    ensures Run(s, es) == Run(Step(s, es[0]), es[1..])
  {
    hide Run, Step;
    RunSplit(s, es, 0, |es|);
    RunNothing(s);
    assert es[..0] == [] && es[..|es|] == es && es[1..|es|] == es[1..];
  }

  lemma {:induction false} RedeemAllSnoc(s: State, users: seq<Address>, user: Address)
    ensures RedeemAll(s, users + [user]) == RedeemStep(RedeemAll(s, users), user)
    decreases |users|
  {
    hide RedeemStep;
    if users != [] {
      assert (users + [user])[1..] == users[1..] + [user];
      RedeemAllSnoc(RedeemStep(s, users[0]), users[1..], user);
    }
  }

  /** Everything that a redemption does, as seen by one address. */
  lemma RedeemStepEffect(s: State, user: Address, a: Address)
    requires Redeemable(s)
    ensures var t, pays := RedeemStep(s, user), user != s.cfg.self && 1 <= Payout(s, user);
            && t.cfg == s.cfg && t.status == s.status && t.finalPrice == s.finalPrice
            && t.book.poolYes == s.book.poolYes && t.book.poolNo == s.book.poolNo
            && t.book.totalSupply == s.book.totalSupply - (if pays then Payout(s, user) else 0)
            && Get(t.book.yes, a) == (if pays && a == user then 0 else Get(s.book.yes, a))
            && Get(t.book.no, a) == (if pays && a == user then 0 else Get(s.book.no, a))
            && Get(t.book.tokens, a) == Get(s.book.tokens, a)
                 + (if pays && a == user then Payout(s, user) else 0)
                 - (if pays && a == s.cfg.self then Payout(s, user) else 0)
  {
    RedeemIff(s, user);
    hide Redeemable, Payout, ExecRedeem;
  }

  lemma RedeemStepKeeps(s: State, user: Address)
    requires Redeemable(s)
    ensures Redeemable(RedeemStep(s, user))
  {
    var paid := Payout(s, user);
    RedeemIff(s, user);
    if ExecRedeem(s, user).Ok? {
      RedeemedRedeemable(s, user, paid);
    }
    hide Redeemable, Redeemed, ExecRedeem, Payout;
  }

  lemma RedeemedRedeemable(s: State, user: Address, paid: int)
    requires Redeemable(s) && user != s.cfg.self && paid == Payout(s, user)
    ensures Redeemable(Redeemed(s, user, paid))
  {
    hide Sum, Get, Set, Move, NonNegative;
    NonNegativeAt(s.book.yes, user);
    NonNegativeAt(s.book.no, user);
    SumPaid(s.book, s.cfg.self, user, paid, s.cfg.self);
    SumWithBal(s.book, Yes, user, 0);
    SumWithBal(s.book, No, user, 0);
  }

  lemma SameState(s: State, t: State)
    requires forall a :: AgreeAt(s, t, a)
    ensures s == t
  {
    hide Get;
    assert AgreeAt(s, t, s.cfg.self);
    forall a
      ensures Get(s.book.yes, a) == Get(t.book.yes, a)
      ensures Get(s.book.no, a) == Get(t.book.no, a)
      ensures Get(s.book.tokens, a) == Get(t.book.tokens, a)
    {
      assert AgreeAt(s, t, a);
    }
    SameBalances(s.book.yes, t.book.yes);
    SameBalances(s.book.no, t.book.no);
    SameBalances(s.book.tokens, t.book.tokens);
  }

  /** Two redemptions commute. */
  lemma RedeemsCommute(s: State, u: Address, v: Address)
    requires Redeemable(s)
    ensures RedeemStep(RedeemStep(s, u), v) == RedeemStep(RedeemStep(s, v), u)
  {
    hide Redeemable, RedeemStep, Get;
    if u != v {
      var suv, svu := RedeemStep(RedeemStep(s, u), v), RedeemStep(RedeemStep(s, v), u);
      forall a ensures AgreeAt(suv, svu, a) {
        RedeemsCommuteAt(s, u, v, a);
      }
      assert AgreeAt(suv, svu, u);
      SameState(suv, svu);
    }
  }

  ghost predicate AgreeAt(s: State, t: State, a: Address) {
    && s.cfg == t.cfg && s.status == t.status && s.finalPrice == t.finalPrice
    && s.book.poolYes == t.book.poolYes && s.book.poolNo == t.book.poolNo
    && s.book.totalSupply == t.book.totalSupply
    && Get(s.book.yes, a) == Get(t.book.yes, a)
    && Get(s.book.no, a) == Get(t.book.no, a)
    && Get(s.book.tokens, a) == Get(t.book.tokens, a)
  }

  /** What a holder can redeem does not depend on others having redeemed. */
  lemma PayoutUnaffected(s: State, u: Address, v: Address)
    requires Redeemable(s) && u != v
    ensures Payout(RedeemStep(s, u), v) == Payout(s, v)
  {
    hide Redeemable, RedeemStep, Get, TruncDiv;
    RedeemStepEffect(s, u, v);
  }

  lemma RedeemsCommuteAt(s: State, u: Address, v: Address, a: Address)
    requires Redeemable(s) && u != v
    ensures AgreeAt(RedeemStep(RedeemStep(s, u), v), RedeemStep(RedeemStep(s, v), u), a)
  {
    hide Redeemable, RedeemStep, Get, Payout;
    RedeemStepKeeps(s, u);
    RedeemStepKeeps(s, v);
    PayoutUnaffected(s, u, v);
    PayoutUnaffected(s, v, u);
    RedeemStepEffect(s, u, a);
    RedeemStepEffect(s, v, a);
    RedeemStepEffect(RedeemStep(s, u), v, a);
    RedeemStepEffect(RedeemStep(s, v), u, a);
  }

  /** Any redeemer in a queue may go first. */
  lemma {:induction false} GoFirst(s: State, users: seq<Address>, i: nat)
    requires Redeemable(s) && i < |users|
    ensures RedeemAll(s, users) == RedeemAll(RedeemStep(s, users[i]), users[..i] + users[i + 1..])
    decreases i
  {
    hide Redeemable, RedeemStep;
    if i == 0 {
      assert users[..0] + users[1..] == users[1..];
    } else {
      var rest := users[1..i] + users[i + 1..];
      RedeemStepKeeps(s, users[0]);
      GoFirst(RedeemStep(s, users[0]), users[1..], i - 1);
      assert users[1..][..i - 1] + users[1..][i..] == rest;
      RedeemsCommute(s, users[0], users[i]);
      assert users[..i] + users[i + 1..] == [users[0]] + rest;
    }
  }

  /** The final state does not depend on the order in which people redeem. */
  lemma {:induction false} OrderIndependent(s: State, users: seq<Address>, others: seq<Address>)
    requires Redeemable(s) && multiset(users) == multiset(others)
    ensures RedeemAll(s, users) == RedeemAll(s, others)
    decreases |users|
  {
    hide Redeemable, RedeemStep;
    if users == [] {
      assert |multiset(others)| == 0;
    } else {
      assert users[0] in multiset(others);
      var i :| 0 <= i < |others| && others[i] == users[0];
      var rest := others[..i] + others[i + 1..];
      SameRest(users, others, i);
      GoFirst(s, others, i);
      RedeemStepKeeps(s, users[0]);
      OrderIndependent(RedeemStep(s, users[0]), users[1..], rest);
    }
  }

  /** ... so two runs of redemptions by the same people, at whatever times and in whatever order,
      reach the same state. */
  lemma RunsOfRedeemsAgree(s: State, es: seq<Event>, users: seq<Address>, fs: seq<Event>, others: seq<Address>)
    requires Redeemable(s) && IsQueue(es, users) && IsQueue(fs, others) && multiset(users) == multiset(others)
    ensures Run(s, es) == Run(s, fs)
  {
    hide Redeemable, Run, RedeemAll;
    QueueIsRun(s, es, users);
    QueueIsRun(s, fs, others);
    OrderIndependent(s, users, others);
  }

  lemma SameRest(users: seq<Address>, others: seq<Address>, i: nat)
    requires |users| > 0 && i < |others| && others[i] == users[0]
    requires multiset(users) == multiset(others)
    ensures multiset(users[1..]) == multiset(others[..i] + others[i + 1..])
  {
    var u := users[0];
    assert users == [u] + users[1..];
    assert others == others[..i] + ([u] + others[i + 1..]);
    CancelOne(multiset(users[1..]), multiset(others[..i]) + multiset(others[i + 1..]), u);
  }

  lemma CancelOne(x: multiset<Address>, y: multiset<Address>, u: Address)
    requires multiset{u} + x == y + multiset{u}
    ensures x == y
  {
    forall e ensures x[e] == y[e] {
      assert (multiset{u} + x)[e] == (y + multiset{u})[e];
    }
  }

  // ----- who is paid when not everybody can be

  /** What everyone but the contract could claim, one by one. */
  ghost function Claims(s: State): Balances {
    map a | a in s.book.yes.Keys + s.book.no.Keys && a != s.cfg.self && 1 <= Payout(s, a) :: Payout(s, a)
  }

  lemma ClaimsAt(s: State, a: Address)
    ensures Get(Claims(s), a) == if a != s.cfg.self && 1 <= Payout(s, a) then Payout(s, a) else 0
  {
  }

  /** A queue in which every redemption succeeds. */
  predicate AllPaid(s: State, users: seq<Address>)
    decreases |users|
  {
    users == [] || (ExecRedeem(s, users[0]).Ok? && AllPaid(RedeemStep(s, users[0]), users[1..]))
  }

  /** ... as a run: each of its calls succeeds where it is made. */
  lemma {:induction false} AllPaidIsRun(s: State, es: seq<Event>, users: seq<Address>)
    requires IsQueue(es, users)
    ensures AllPaid(s, users) <==> forall i :: 0 <= i < |es| ==> Exec(Run(s, es[..i]), es[i]).Ok?
    decreases |users|
  {
    hide Exec, ExecRedeem, Run;
    if es != [] {
      var t, rest := Step(s, es[0]), es[1..];
      RunNothing(s);
      assert es[..0] == [] && es[0] == Event(es[0].now, Redeem(users[0]));
      RedeemCall(s, es[0].now, users[0]);
      forall i | 0 <= i < |rest| ensures Run(s, es[..i + 1]) == Run(t, rest[..i]) && es[i + 1] == rest[i] {
        RunFirst(s, es[..i + 1]);
        assert es[..i + 1][1..] == rest[..i];
      }
      AllPaidIsRun(t, rest, users[1..]);
      assert AllPaid(s, users) ==> forall i :: 0 <= i < |es| ==> Exec(Run(s, es[..i]), es[i]).Ok? by {
        forall i | AllPaid(s, users) && 1 <= i < |es| ensures Exec(Run(s, es[..i]), es[i]).Ok? {
          assert Exec(Run(t, rest[..i - 1]), rest[i - 1]).Ok?;
        }
      }
      assert (forall i :: 0 <= i < |es| ==> Exec(Run(s, es[..i]), es[i]).Ok?) ==> AllPaid(s, users) by {
        if forall i :: 0 <= i < |es| ==> Exec(Run(s, es[..i]), es[i]).Ok? {
          forall i | 0 <= i < |rest| ensures Exec(Run(t, rest[..i]), rest[i]).Ok? {
            assert Exec(Run(s, es[..i + 1]), es[i + 1]).Ok?;
          }
        }
      }
    }
  }

  /** A paid holder's claim is gone, and nobody else's has changed. */
  lemma ClaimsAfter(s: State, user: Address)
    requires s.status != Open && ExecRedeem(s, user).Ok?
    ensures var t := RedeemStep(s, user);
            && t.status == s.status && t.cfg == s.cfg
            && Claims(t) == Set(Claims(s), user, 0) && Get(Claims(s), user) == Payout(s, user)
            && Get(t.book.tokens, s.cfg.self) == Get(s.book.tokens, s.cfg.self) - Payout(s, user)
            && 0 <= Get(t.book.tokens, s.cfg.self)
  {
    hide Claims;
    var t := RedeemStep(s, user);
    ClaimsAt(s, user);
    forall a ensures Get(Claims(t), a) == Get(Set(Claims(s), user, 0), a) {
      ClaimsAt(s, a);
      ClaimsAt(t, a);
      SetOthers(Claims(s), user, 0);
      PayoutAfter(s, user, a);
    }
    SameBalances(Claims(t), Set(Claims(s), user, 0));
    PayoutAfter(s, user, user);
  }

  lemma PayoutAfter(s: State, user: Address, a: Address)
    requires ExecRedeem(s, user).Ok?
    ensures var t := RedeemStep(s, user);
            && t.cfg == s.cfg && t.status == s.status && user != s.cfg.self && 1 <= Payout(s, user)
            && Payout(t, a) == (if a == user then 0 else Payout(s, a))
            && Get(t.book.tokens, s.cfg.self) == Get(s.book.tokens, s.cfg.self) - Payout(s, user)
            && 0 <= Get(t.book.tokens, s.cfg.self)
  {
    hide Set, Move;
    SetOthers(s.book.yes, user, 0);
    SetOthers(s.book.no, user, 0);
    SumPaid(s.book, s.cfg.self, user, Payout(s, user), s.cfg.self);
  }

  /** Everybody with a claim, once each, in some order. */
  ghost predicate Enumerates(users: seq<Address>, claims: Balances) {
    && (forall a :: a in users <==> a in claims)
    && (forall i, j :: 0 <= i < j < |users| ==> users[i] != users[j])
  }

  /** In whatever order they come, all claimants are paid exactly when the claims together do not
      exceed the collateral. */
  lemma {:induction false} EverybodyPaidIff(s: State, users: seq<Address>)
    requires s.status != Open && 0 <= Get(s.book.tokens, s.cfg.self) && Enumerates(users, Claims(s))
    ensures AllPaid(s, users) <==> Sum(Claims(s)) <= Get(s.book.tokens, s.cfg.self)
    decreases |users|
  {
    hide Claims, RedeemStep, ExecRedeem, Sum, Get, Payout;
    if users == [] {
      NoClaims(Claims(s));
    } else {
      var u := users[0];
      assert u in Claims(s);
      ClaimsAt(s, u);
      ClaimIsPayable(s, u);
      ClaimAtMostAll(s, u);
      if ExecRedeem(s, u).Ok? {
        ClaimsAfter(s, u);
        SumSet(Claims(s), u, 0);
        RestEnumerates(users, Claims(s));
        EverybodyPaidIff(RedeemStep(s, u), users[1..]);
      }
    }
  }

  lemma NoClaims(claims: Balances)
    requires Enumerates([], claims)
    ensures Sum(claims) == 0
  {
    assert forall a :: a in [] <==> a in claims;
    assert claims == map[];
  }

  lemma ClaimIsPayable(s: State, user: Address)
    requires s.status != Open && user in Claims(s)
    ensures ExecRedeem(s, user).Ok? <==> Payout(s, user) <= Get(s.book.tokens, s.cfg.self)
  {
    hide Payout, Redeemed, Get;
  }

  lemma ClaimAtMostAll(s: State, user: Address)
    ensures user in Claims(s) ==> Payout(s, user) <= Sum(Claims(s))
  {
    hide Claims, Sum, Payout;
    forall a ensures 0 <= Get(Claims(s), a) {
      ClaimsAt(s, a);
    }
    ClaimsAt(s, user);
    BalanceAtMostSum(Claims(s), user);
  }

  lemma RestEnumerates(users: seq<Address>, claims: Balances)
    requires users != [] && Enumerates(users, claims)
    ensures Enumerates(users[1..], Set(claims, users[0], 0))
  {
    forall a ensures a in users[1..] <==> a in Set(claims, users[0], 0) {
      assert users == [users[0]] + users[1..];
      assert a in users[1..] ==> exists i :: 0 < i < |users| && users[i] == a;
    }
  }

  /** The same of every reachable final state, in the terms of its history; and with debt-free buys
      everybody is paid. */
  lemma ReachablePaidIff(cfg: Config, now: nat, tokens: Balances, es: seq<Event>, users: seq<Address>)
    requires Initialize(cfg, now, tokens).Ok? && NonNegative(tokens)
    requires var s := Run(Initialize(cfg, now, tokens).value, es);
             s.status != Open && Enumerates(users, Claims(s))
    ensures var s0 := Initialize(cfg, now, tokens).value;
            var s := Run(s0, es);
            && (AllPaid(s, users) <==>
                  Sum(Claims(s)) <= s.book.totalSupply + Get(tokens, cfg.self) + Donations(s0, es))
            && (DebtFreeRun(s0, es) ==> AllPaid(s, users))
  {
    hide Backed, NoDebt, Run, DebtFreeRun, Initialize, Claims, Enumerates, AllPaid, Sum, Get, Redeemable, Payout;
    var s0 := Initialize(cfg, now, tokens).value;
    var s, donated := Run(s0, es), Get(tokens, cfg.self) + Donations(s0, es);
    EveryStateIsBacked(cfg, now, tokens, es);
    InitializeBacked(cfg, now, tokens);
    ConfigKept(s0, es);
    InitializeTokens(cfg, now, tokens);
    TokensStayOverRun(s0, es);
    NonNegativeAt(s.book.tokens, cfg.self);
    CollateralOf(s, donated, OddRedeems(s0, es));
    EverybodyPaidIff(s, users);
    if DebtFreeRun(s0, es) {
      DonationsNonNegative(s0, es);
      NonNegativeAt(tokens, cfg.self);
      BackedIsRedeemable(s, donated, OddRedeems(s0, es));
      DebtFreeAllPaid(s, users);
    }
  }

  lemma CollateralOf(s: State, donated: int, odd: nat)
    requires Backed(s, donated, odd)
    ensures Get(s.book.tokens, s.cfg.self) == s.book.totalSupply + donated
  {
  }

  lemma {:induction false} DebtFreeAllPaid(s: State, users: seq<Address>)
    requires Redeemable(s) && Enumerates(users, Claims(s))
    ensures AllPaid(s, users)
    decreases |users|
  {
    hide Claims, RedeemStep, ExecRedeem, Get, Payout, Redeemable;
    if users != [] {
      var u := users[0];
      assert u in Claims(s);
      ClaimsAt(s, u);
      RedeemIff(s, u);
      ClaimsAre(s, u);
      ClaimsAfter(s, u);
      RestEnumerates(users, Claims(s));
      RedeemStepKeeps(s, u);
      DebtFreeAllPaid(RedeemStep(s, u), users[1..]);
    }
  }

  lemma ClaimsAre(s: State, user: Address)
    requires user in Claims(s)
    ensures user != s.cfg.self && 1 <= Payout(s, user) && s.status != Open
  {
  }

  // ----- draining a closed market

  function TotalPaid(s: State, users: seq<Address>): int
    decreases |users|
  {
    if users == [] then 0
    else
      var t := RedeemStep(s, users[0]);
      s.book.totalSupply - t.book.totalSupply + TotalPaid(t, users[1..])
  }

  /** What one address sees of a whole queue of redemptions: being in it pays the payout as of
      the start, once, and leaves nothing (or an unpayable remainder) behind. */
  lemma {:induction false} RedeemAllEffect(s: State, users: seq<Address>, a: Address)
    requires Redeemable(s) && a != s.cfg.self
    ensures var t := RedeemAll(s, users);
            && Redeemable(t) && t.cfg == s.cfg && t.status == s.status
            && t.book.totalSupply == s.book.totalSupply - TotalPaid(s, users)
            && t.book.Total(s.cfg.self) == s.book.Total(s.cfg.self)
            && Get(t.book.yes, s.cfg.self) == Get(s.book.yes, s.cfg.self)
            && Get(t.book.no, s.cfg.self) == Get(s.book.no, s.cfg.self)
            && Get(t.book.tokens, a) == Get(s.book.tokens, a) + (if a in users then Payout(s, a) else 0)
            && (a in users && 1 <= Payout(s, a) ==> Get(t.book.yes, a) == 0 && Get(t.book.no, a) == 0)
            && (a !in users || Payout(s, a) < 1 ==>
                  Get(t.book.yes, a) == Get(s.book.yes, a) && Get(t.book.no, a) == Get(s.book.no, a))
    decreases |users|
  {
    hide Redeemable, RedeemStep, Get;
    PayoutCovered(s, a);
    if users != [] {
      var u := users[0];
      RedeemStepKeeps(s, u);
      RedeemStepEffect(s, u, a);
      RedeemStepEffect(s, u, s.cfg.self);
      RedeemAllEffect(RedeemStep(s, u), users[1..], a);
    }
  }

  // ----- a resolved market pays out exactly what it holds

  /** Once everyone else holding the winning side has redeemed, in whatever order, the supply
      left is what the contract itself was sent of that side. */
  lemma ResolvedDrain(s: State, users: seq<Address>, donated: int)
    requires Backed(s, donated, 0) && NoDebt(s) && 0 <= donated
    requires s.status == ResolvedYes || s.status == ResolvedNo
    requires forall a :: a != s.cfg.self && 1 <= Payout(s, a) ==> a in users
    ensures TotalPaid(s, users) + Payout(s, s.cfg.self) == s.book.totalSupply
    ensures RedeemAll(s, users).book.totalSupply == Payout(s, s.cfg.self)
  {
    hide Sum, Redeemable, RedeemStep, Get;
    var side := if s.status == ResolvedYes then Yes else No;
    var t := RedeemAll(s, users);
    BackedIsRedeemable(s, donated, 0);
    RunOfRedeems(s, users, donated, 0);
    forall a | a != s.cfg.self ensures Get(t.book.Shares(side), a) == 0 {
      RedeemAllEffect(s, users, a);
      PayoutCovered(s, a);
    }
    OnlyHolder(t.book.Shares(side), s.cfg.self);
    SelfUnpaid(s, users);
  }

  lemma OnlyHolder(m: Balances, only: Address)
    requires forall a :: a != only ==> Get(m, a) == 0
    ensures Sum(m) == Get(m, only)
  {
    SumSet(m, only, 0);
    var none: Balances := map[];
    forall b ensures Get(Set(m, only, 0), b) == Get(none, b) {
      assert b != only ==> Get(m, b) == 0;
    }
    SameBalances(Set(m, only, 0), none);
  }

  /** The contract's own position, which nobody can redeem, is never touched. */
  lemma {:induction false} SelfUnpaid(s: State, users: seq<Address>)
    requires Redeemable(s)
    ensures var t := RedeemAll(s, users);
            && t.cfg == s.cfg && t.status == s.status
            && t.book.totalSupply == s.book.totalSupply - TotalPaid(s, users)
            && Get(t.book.yes, s.cfg.self) == Get(s.book.yes, s.cfg.self)
            && Get(t.book.no, s.cfg.self) == Get(s.book.no, s.cfg.self)
    decreases |users|
  {
    hide Redeemable, RedeemStep, Get;
    if users != [] {
      RedeemStepKeeps(s, users[0]);
      RedeemStepEffect(s, users[0], s.cfg.self);
      SelfUnpaid(RedeemStep(s, users[0]), users[1..]);
    }
  }

  // ----- a cancelled market pays half a unit per share, up to the odd ones

  /** Everyone but the contract whose two balances add up to an odd number. */
  ghost function OddHolders(s: State): set<Address> {
    set a | a in s.book.yes.Keys + s.book.no.Keys && a != s.cfg.self && s.book.Total(a) % 2 == 1
  }

  /** Twice the supply minus all shares, plus the odd holders still to come, never changes. */
  lemma OddsConstant(s: State, user: Address, donated: int, odd: nat)
    requires Backed(s, donated, odd) && NoDebt(s) && 0 <= donated && s.status == Cancelled
    ensures var t, now := RedeemStep(s, user), |OddHolders(RedeemStep(s, user))|;
            now <= odd + |OddHolders(s)| && Backed(t, donated, odd + |OddHolders(s)| - now) && NoDebt(t)
            && t.status == Cancelled && t.cfg == s.cfg
  {
    hide Sum, Redeemable, Get, RedeemStep, ExecRedeem, Backed, NoDebt, OddHolders;
    BackedIsRedeemable(s, donated, odd);
    OddHoldersAfter(s, user);
    RedeemStepBacked(s, user, donated, odd);
    RedeemStepEffect(s, user, user);
  }

  lemma RedeemStepBacked(s: State, user: Address, donated: int, odd: nat)
    requires Backed(s, donated, odd) && NoDebt(s) && s.status != Open
    ensures var halved := ExecRedeem(s, user).Ok? && s.status == Cancelled && s.book.Total(user) % 2 == 1;
            Backed(RedeemStep(s, user), donated, odd + if halved then 1 else 0) && NoDebt(RedeemStep(s, user))
  {
    hide Backed, NoDebt, X.Redeemed;
    if ExecRedeem(s, user).Ok? {
      RedeemedKeeps(s, user, Payout(s, user), donated, odd);
    }
  }

  lemma OddHoldersAfter(s: State, user: Address)
    requires Redeemable(s) && s.status == Cancelled
    ensures OddHolders(RedeemStep(s, user)) ==
            if ExecRedeem(s, user).Ok? then OddHolders(s) - {user} else OddHolders(s)
    ensures ExecRedeem(s, user).Ok? ==> (user in OddHolders(s) <==> s.book.Total(user) % 2 == 1)
  {
    hide Redeemable, RedeemStep, ExecRedeem, OddHolders, Payout;
    var t := RedeemStep(s, user);
    RedeemIff(s, user);
    forall a ensures a in OddHolders(t) <==> a in OddHolders(s) && (ExecRedeem(s, user).Ok? ==> a != user) {
      RedeemStepEffect(s, user, a);
      OddHolderIff(s, a);
      OddHolderIff(t, a);
    }
    OddHolderIff(s, user);
  }

  lemma OddHolderIff(s: State, a: Address)
    ensures a in OddHolders(s) <==> a != s.cfg.self && s.book.Total(a) % 2 == 1
  {
  }

  /** A queue of redemptions keeps the books. */
  lemma RunOfRedeems(s: State, users: seq<Address>, donated: int, odd: nat)
    requires Backed(s, donated, odd) && NoDebt(s) && 0 <= donated && s.status != Open
    ensures var t, before, after := RedeemAll(s, users), OddHolders(s), OddHolders(RedeemAll(s, users));
            && t.status == s.status && t.cfg == s.cfg && NoDebt(t)
            && (s.status != Cancelled ==> Backed(t, donated, odd))
            && (s.status == Cancelled ==>
                  |after| <= odd + |before| && Backed(t, donated, odd + |before| - |after|))
  {
    hide Backed, NoDebt, RedeemAll, OddHolders;
    if s.status == Cancelled {
      CancelledQueue(s, users, donated, odd);
    } else {
      ResolvedQueue(s, users, donated, odd);
    }
  }

  lemma {:induction false} CancelledQueue(s: State, users: seq<Address>, donated: int, odd: nat)
    requires Backed(s, donated, odd) && NoDebt(s) && 0 <= donated && s.status == Cancelled
    ensures var t, before, after := RedeemAll(s, users), |OddHolders(s)|, |OddHolders(RedeemAll(s, users))|;
            && t.status == Cancelled && t.cfg == s.cfg && NoDebt(t)
            && after <= odd + before && Backed(t, donated, odd + before - after)
    decreases |users|
  {
    hide Backed, NoDebt, RedeemStep, OddHolders;
    if users != [] {
      var t := RedeemStep(s, users[0]);
      OddsConstant(s, users[0], donated, odd);
      CancelledQueue(t, users[1..], donated, odd + |OddHolders(s)| - |OddHolders(t)|);
    }
  }

  lemma {:induction false} ResolvedQueue(s: State, users: seq<Address>, donated: int, odd: nat)
    requires Backed(s, donated, odd) && NoDebt(s) && 0 <= donated && s.status != Open && s.status != Cancelled
    ensures var t := RedeemAll(s, users);
            t.status == s.status && t.cfg == s.cfg && NoDebt(t) && Backed(t, donated, odd)
    decreases |users|
  {
    hide Backed, NoDebt, Redeemable, RedeemStep, Payout, Get;
    if users != [] {
      BackedIsRedeemable(s, donated, odd);
      RedeemStepBacked(s, users[0], donated, odd);
      RedeemStepEffect(s, users[0], users[0]);
      ResolvedQueue(RedeemStep(s, users[0]), users[1..], donated, odd);
    }
  }

  /** Two ledgers in which everyone but one address holds one share or none. */
  lemma {:induction false} DustSum(yes: Balances, no: Balances, only: Address, odd: set<Address>)
    requires only !in odd
    requires forall a :: a != only ==> Get(yes, a) >= 0 && Get(no, a) >= 0
    requires forall a :: a != only ==> Get(yes, a) + Get(no, a) == if a in odd then 1 else 0
    ensures Sum(yes) + Sum(no) == Get(yes, only) + Get(no, only) + |odd|
    decreases |odd|
  {
    if odd == {} {
      OnlyHolder(yes, only);
      OnlyHolder(no, only);
    } else {
      var a :| a in odd;
      SumSet(yes, a, 0);
      SumSet(no, a, 0);
      SetOthers(yes, a, 0);
      SetOthers(no, a, 0);
      DustSum(Set(yes, a, 0), Set(no, a, 0), only, odd - {a});
    }
  }

  /** After everyone with at least two shares has redeemed a cancelled market, in whatever
      order, twice the supply left is the number of odd redemptions before, plus the number of
      holders whose total is still odd, plus whatever shares were sent to the contract itself. */
  lemma CancelledDrain(s: State, users: seq<Address>, donated: int, odd: nat)
    requires Backed(s, donated, odd) && NoDebt(s) && 0 <= donated && s.status == Cancelled
    requires forall a :: a != s.cfg.self && 2 <= s.book.Total(a) ==> a in users
    ensures 2 * RedeemAll(s, users).book.totalSupply == odd + |OddHolders(s)| + s.book.Total(s.cfg.self)
  {
    hide Sum, Redeemable, RedeemStep, Get, NonNegative, OddHolders;
    var t := RedeemAll(s, users);
    BackedIsRedeemable(s, donated, odd);
    RunOfRedeems(s, users, donated, odd);
    forall a | a != s.cfg.self
      ensures Get(t.book.yes, a) >= 0 && Get(t.book.no, a) >= 0
      ensures Get(t.book.yes, a) + Get(t.book.no, a) == if a in OddHolders(t) then 1 else 0
    {
      RedeemAllEffect(s, users, a);
      NonNegativeAt(t.book.yes, a);
      NonNegativeAt(t.book.no, a);
      NonNegativeAt(s.book.yes, a);
      NonNegativeAt(s.book.no, a);
      OddHolderIff(t, a);
    }
    OddHolderIff(t, s.cfg.self);
    DustSum(t.book.yes, t.book.no, s.cfg.self, OddHolders(t));
    SelfUnpaid(s, users);
  }

  /** A cancelled market pays out everything it holds exactly when no redemption so far was odd,
      nobody's total is odd and the contract holds no shares of its own. */
  lemma CancelledDrainsToZeroIff(s: State, users: seq<Address>, donated: int, odd: nat)
    requires Backed(s, donated, odd) && NoDebt(s) && 0 <= donated && s.status == Cancelled
    requires forall a :: a != s.cfg.self && 2 <= s.book.Total(a) ==> a in users
    ensures RedeemAll(s, users).book.totalSupply == 0 <==>
            odd == 0 && s.book.Total(s.cfg.self) == 0 && forall a :: a != s.cfg.self ==> s.book.Total(a) % 2 == 0
  {
    hide Sum, RedeemAll, Get, NonNegative, OddHolders;
    CancelledDrain(s, users, donated, odd);
    NonNegativeAt(s.book.yes, s.cfg.self);
    NonNegativeAt(s.book.no, s.cfg.self);
    forall a ensures a in OddHolders(s) <==> a != s.cfg.self && s.book.Total(a) % 2 == 1 {
      OddHolderIff(s, a);
    }
    if RedeemAll(s, users).book.totalSupply == 0 {
      assert OddHolders(s) == {};
    }
    if forall a :: a != s.cfg.self ==> s.book.Total(a) % 2 == 0 {
      assert OddHolders(s) == {};
    }
  }

  /** From any reachable cancelled state, with any transfers and redemptions before it: after
      everyone with at least two shares has redeemed, twice the supply left is the number of odd
      redemptions of the whole run up to there, plus the holders still odd, plus the shares sent
      to the contract itself. */
  lemma ReachableCancelledDrain(cfg: Config, now: nat, tokens: Balances, es: seq<Event>, users: seq<Address>)
    requires Initialize(cfg, now, tokens).Ok? && NonNegative(tokens)
    requires DebtFreeRun(Initialize(cfg, now, tokens).value, es)
    requires var s := Run(Initialize(cfg, now, tokens).value, es);
             && s.status == Cancelled
             && forall a :: a != s.cfg.self && 2 <= s.book.Total(a) ==> a in users
    ensures var s0 := Initialize(cfg, now, tokens).value;
            var s := Run(s0, es);
            && 2 * RedeemAll(s, users).book.totalSupply ==
               OddRedeems(s0, es) + |OddHolders(s)| + s.book.Total(s.cfg.self)
            && (RedeemAll(s, users).book.totalSupply == 0 <==>
                  && OddRedeems(s0, es) == 0 && s.book.Total(s.cfg.self) == 0
                  && forall a :: a != s.cfg.self ==> s.book.Total(a) % 2 == 0)
  {
    hide Backed, NoDebt, Run, DebtFreeRun, OddHolders, RedeemAll, Initialize, Sum, Get, OddRedeems;
    var s0 := Initialize(cfg, now, tokens).value;
    EveryStateIsBacked(cfg, now, tokens, es);
    DonationsNonNegative(s0, es);
    NonNegativeAt(tokens, cfg.self);
    var donated := Get(tokens, cfg.self) + Donations(s0, es);
    CancelledDrain(Run(s0, es), users, donated, OddRedeems(s0, es));
    CancelledDrainsToZeroIff(Run(s0, es), users, donated, OddRedeems(s0, es));
  }

  // ----- what transfers can and cannot recover

  lemma {:induction false} FinalDebtFree(s: State, es: seq<Event>)
    requires s.status != Open
    ensures DebtFreeRun(s, es)
  {
    hide Exec, Run, DebtFree;
    if es != [] {
      var before := es[..|es| - 1];
      FinalDebtFree(s, before);
      FinalRun(s, before);
      TradingNeedsOpen(Run(s, before), es[|es| - 1]);
      OnlyBuysOwe(Run(s, before), es[|es| - 1]);
    }
  }

  /** Shares sent to the contract itself stay there. */
  lemma SelfSharesStep(s: State, e: Event)
    requires s.status != Open
    ensures Step(s, e).cfg == s.cfg && s.book.Total(s.cfg.self) <= Step(s, e).book.Total(s.cfg.self)
  {
    hide ExecBuy, ExecSell, ExecSettle, Move, Payout;
    TradingNeedsOpen(s, e);
    if e.call.Transfer? && Exec(s, e).Ok? {
      SelfSharesMove(s.book.Shares(e.call.side), e.call.from, e.call.to, e.call.amount, s.cfg.self);
    }
  }

  lemma SelfSharesMove(m: Balances, from: Address, to: Address, amount: int, self: Address)
    requires from != self && 1 <= amount
    ensures Get(m, self) <= Get(Move(m, from, to, amount), self)
  {
  }

  lemma {:induction false} SelfSharesStay(s: State, es: seq<Event>)
    requires s.status != Open
    ensures Run(s, es).cfg == s.cfg && s.book.Total(s.cfg.self) <= Run(s, es).book.Total(s.cfg.self)
  {
    hide Step, Get;
    if es != [] {
      SelfSharesStay(s, es[..|es| - 1]);
      FinalRun(s, es[..|es| - 1]);
      SelfSharesStep(Run(s, es[..|es| - 1]), es[|es| - 1]);
    }
  }

  /** What a cancelled market can never pay out again, whatever anybody does: half a unit for every
      odd redemption made and for every share the contract itself holds. */
  lemma Irrecoverable(s: State, es: seq<Event>, donated: int, odd: nat)
    requires Backed(s, donated, odd) && NoDebt(s) && s.status == Cancelled
    ensures odd + OddRedeems(s, es) + s.book.Total(s.cfg.self) <= 2 * Run(s, es).book.totalSupply
  {
    hide Run, NoDebt, Backed, Sum, OddRedeems, Donations, Get, DebtFreeRun;
    FinalDebtFree(s, es);
    FinalRun(s, es);
    SelfSharesStay(s, es);
    RunKeepsFrom(s, es, donated, odd);
    TotalAtMostShares(Run(s, es), s.cfg.self, donated + Donations(s, es), odd + OddRedeems(s, es));
  }

  lemma TotalAtMostShares(s: State, a: Address, donated: int, odd: nat)
    requires Backed(s, donated, odd) && NoDebt(s) && s.status == Cancelled
    ensures odd + s.book.Total(a) <= 2 * s.book.totalSupply
  {
    hide Sum, NonNegative, Get;
    BalanceAtMostSum(s.book.yes, a);
    BalanceAtMostSum(s.book.no, a);
  }

  /** One holder sends all shares of a side to another. */
  lemma SendAll(s: State, from: Address, to: Address, side: Prediction, donated: int, odd: nat)
    returns (es: seq<Event>)
    requires Backed(s, donated, odd) && NoDebt(s) && s.status == Cancelled
    requires from != s.cfg.self && to != s.cfg.self && from != to
    ensures var t := Run(s, es);
            && Backed(t, donated, odd) && NoDebt(t) && t.status == Cancelled && t.cfg == s.cfg
            && t.book.Shares(side.Other()) == s.book.Shares(side.Other())
            && t.book.Bal(side, from) == 0 && t.book.Total(s.cfg.self) == s.book.Total(s.cfg.self)
            && forall a :: a != from && a != to ==> t.book.Bal(side, a) == s.book.Bal(side, a)
  {
    hide Run, Backed, NoDebt, Exec, Get, Donation, OddRedeem, DebtFree;
    var held := s.book.Bal(side, from);
    SharesNonNegative(s, side, from);
    if held == 0 {
      es := [];
      RunNothing(s);
    } else {
      var e := Event(0, Transfer(from, to, side, held));
      es := [] + [e];
      RunNothing(s);
      RunSnoc(s, [], e);
      SentAll(s, from, to, side);
      StepKeeps(s, e, donated, odd);
    }
  }

  lemma SharesNonNegative(s: State, side: Prediction, a: Address)
    requires NoDebt(s)
    ensures 0 <= s.book.Bal(side, a)
  {
    NonNegativeAt(s.book.Shares(side), a);
  }

  lemma SentAll(s: State, from: Address, to: Address, side: Prediction)
    requires from != s.cfg.self && from != to && 1 <= s.book.Bal(side, from)
    ensures var e := Event(0, Transfer(from, to, side, s.book.Bal(side, from)));
            var t := Step(s, e);
            && t.status == s.status && t.book.Shares(side.Other()) == s.book.Shares(side.Other())
            && t.book.Bal(side, from) == 0
            && (to != s.cfg.self ==> t.book.Total(s.cfg.self) == s.book.Total(s.cfg.self))
            && (forall a :: a != from && a != to ==> t.book.Bal(side, a) == s.book.Bal(side, a))
            && Donation(s, e) == 0 && OddRedeem(s, e) == 0 && DebtFree(s, e)
  {
    hide Set;
    var m := s.book.Shares(side);
    SetOthers(m, from, 0);
    SetOthers(Set(m, from, 0), to, Get(m, to) + Get(m, from));
  }

  /** Holders besides the contract and one collector. */
  ghost function Others(s: State, collector: Address): set<Address> {
    set a | a in s.book.yes.Keys + s.book.no.Keys && a != s.cfg.self && a != collector
  }

  /** All outside holders can bring their shares together. */
  lemma {:induction false} Collect(s: State, collector: Address, donated: int, odd: nat)
    returns (es: seq<Event>)
    requires Backed(s, donated, odd) && NoDebt(s) && s.status == Cancelled && collector != s.cfg.self
    ensures var t := Run(s, es);
            && Backed(t, donated, odd) && NoDebt(t) && t.status == Cancelled && t.cfg == s.cfg
            && t.book.Total(s.cfg.self) == s.book.Total(s.cfg.self)
            && Others(t, collector) == {}
    decreases |Others(s, collector)|
  {
    hide Run, Backed, NoDebt, Others;
    if Others(s, collector) == {} {
      es := [];
      RunNothing(s);
    } else {
      var a :| a in Others(s, collector);
      OthersAt(s, collector, a);
      var first := SendAll(s, a, collector, Yes, donated, odd);
      var t := Run(s, first);
      var second := SendAll(t, a, collector, No, donated, odd);
      var u := Run(t, second);
      FewerOthers(s, t, u, collector, a);
      var rest := Collect(u, collector, donated, odd);
      es := first + second + rest;
      RunConcat(s, first, second);
      RunConcat(s, first + second, rest);
    }
  }

  lemma OthersAt(s: State, collector: Address, a: Address)
    ensures a in Others(s, collector) <==>
            a != s.cfg.self && a != collector && (s.book.Bal(Yes, a) != 0 || s.book.Bal(No, a) != 0)
  {
  }

  lemma FewerOthers(s: State, t: State, u: State, collector: Address, a: Address)
    requires a in Others(s, collector) && s.cfg == t.cfg == u.cfg
    requires t.book.no == s.book.no && u.book.yes == t.book.yes
    requires t.book.Bal(Yes, a) == 0 && u.book.Bal(No, a) == 0
    requires forall b :: b != a && b != collector ==> t.book.Bal(Yes, b) == s.book.Bal(Yes, b)
    requires forall b :: b != a && b != collector ==> u.book.Bal(No, b) == t.book.Bal(No, b)
    ensures |Others(u, collector)| < |Others(s, collector)|
  {
    hide Others, Get;
    forall b ensures b in Others(u, collector) <==> b in Others(s, collector) - {a} {
      OthersAt(s, collector, b);
      OthersAt(u, collector, b);
    }
    assert Others(u, collector) == Others(s, collector) - {a};
  }

  /** ... and then redeem as one, which leaves at most half a unit more than the irrecoverable. */
  lemma CollectAndRedeem(s: State, donated: int, odd: nat)
    returns (es: seq<Event>)
    requires Backed(s, donated, odd) && NoDebt(s) && 0 <= donated && s.status == Cancelled
    ensures 2 * Run(s, es).book.totalSupply <= odd + s.book.Total(s.cfg.self) + 1
  {
    hide Run, Backed, NoDebt, Others, Get, OddHolders, RedeemAll, Exec;
    var collector := if s.cfg.self == "" then "a" else "";
    var together := Collect(s, collector, donated, odd);
    var t, redeem := Run(s, together), [Event(0, Redeem(collector))];
    es := together + redeem;
    RunConcat(s, together, redeem);
    QueueIsRun(t, redeem, [collector]);
    forall a | a != s.cfg.self && a != collector ensures t.book.Total(a) == 0 {
      OthersAt(t, collector, a);
      assert a !in Others(t, collector);
    }
    CancelledDrain(t, [collector], donated, odd);
    assert OddHolders(t) <= {collector} by {
      forall a | a in OddHolders(t) ensures a == collector {
        OddHolderIff(t, a);
      }
    }
    SubsetOfOne(OddHolders(t), collector);
  }

  lemma SubsetOfOne(xs: set<Address>, x: Address)
    requires xs <= {x}
    ensures |xs| <= 1
  {
    if x in xs {
      assert xs == {x};
    } else {
      assert xs == {};
    }
  }

  /** From any reachable cancelled state the least supply that calls of any kind can bring about is
      half of the odd redemptions so far and the contract's own shares, rounded up. */
  lemma LeastRemainder(cfg: Config, now: nat, tokens: Balances, es: seq<Event>)
    requires Initialize(cfg, now, tokens).Ok? && NonNegative(tokens)
    requires DebtFreeRun(Initialize(cfg, now, tokens).value, es)
    requires Run(Initialize(cfg, now, tokens).value, es).status == Cancelled
    ensures var s0 := Initialize(cfg, now, tokens).value;
            var s := Run(s0, es);
            var lost := OddRedeems(s0, es) + s.book.Total(cfg.self);
            && (forall more :: (lost + 1) / 2 <= Run(s, more).book.totalSupply)
            && (exists more :: Run(s, more).book.totalSupply == (lost + 1) / 2)
  {
    hide Backed, NoDebt, Run, DebtFreeRun, Initialize, Get, OddRedeems;
    var s0 := Initialize(cfg, now, tokens).value;
    var s, donated, odd := Run(s0, es), Get(tokens, cfg.self) + Donations(s0, es), OddRedeems(s0, es);
    EveryStateIsBacked(cfg, now, tokens, es);
    InitializeBacked(cfg, now, tokens);
    ConfigKept(s0, es);
    DonationsNonNegative(s0, es);
    NonNegativeAt(tokens, cfg.self);
    var lost := odd + s.book.Total(cfg.self);
    forall more ensures (lost + 1) / 2 <= Run(s, more).book.totalSupply {
      Irrecoverable(s, more, donated, odd);
    }
    var best := CollectAndRedeem(s, donated, odd);
    assert Run(s, best).book.totalSupply == (lost + 1) / 2;
  }

  /** From any reachable resolved state, with any transfers before it, the redemptions of all
      outside holders of the winning side pay out exactly the supply, in whatever order. */
  lemma ReachableResolvedDrain(cfg: Config, now: nat, tokens: Balances, es: seq<Event>, users: seq<Address>)
    requires Initialize(cfg, now, tokens).Ok? && NonNegative(tokens)
    requires DebtFreeRun(Initialize(cfg, now, tokens).value, es)
    requires var s := Run(Initialize(cfg, now, tokens).value, es);
             && (s.status == ResolvedYes || s.status == ResolvedNo)
             && forall a :: a != s.cfg.self && 1 <= Payout(s, a) ==> a in users
    ensures var s := Run(Initialize(cfg, now, tokens).value, es);
            && TotalPaid(s, users) + Payout(s, s.cfg.self) == s.book.totalSupply
            && RedeemAll(s, users).book.totalSupply == Payout(s, s.cfg.self)
  {
    hide NoDebt, Run, DebtFreeRun, Payout, RedeemAll, TotalPaid, Initialize, Sum, Get;
    var s0 := Initialize(cfg, now, tokens).value;
    EveryStateIsBacked(cfg, now, tokens, es);
    DonationsNonNegative(s0, es);
    NonNegativeAt(tokens, cfg.self);
    ResolvedDrain(Run(s0, es), users, Get(tokens, cfg.self) + Donations(s0, es));
  }

  /** The liveness backstop, from any reachable open state: past expiry and grace, cancel
      succeeds; each holder of at least two shares is then paid half of them, in any order; and
      the supply that remains is exactly half of the odd shares and of the contract's own. */
  lemma ReachableDrain(cfg: Config, now: nat, tokens: Balances, es: seq<Event>, later: nat, users: seq<Address>)
    requires Initialize(cfg, now, tokens).Ok? && NonNegative(tokens)
    requires DebtFreeRun(Initialize(cfg, now, tokens).value, es)
    requires Run(Initialize(cfg, now, tokens).value, es).status == Open
    requires cfg.expiry + cfg.gracePeriod <= later
    ensures var s := Run(Initialize(cfg, now, tokens).value, es);
            var t := Step(s, Event(later, Cancel));
            && Exec(s, Event(later, Cancel)).Ok?
            && t.status == Cancelled && Redeemable(t)
            && (forall a :: a in users && a != cfg.self ==>
                  Get(RedeemAll(t, users).book.tokens, a) == Get(t.book.tokens, a) + t.book.Total(a) / 2)
            && ((forall a :: a != cfg.self && 2 <= t.book.Total(a) ==> a in users) ==>
                  2 * RedeemAll(t, users).book.totalSupply == |OddHolders(t)| + t.book.Total(cfg.self))
  {
    hide Backed, NoDebt, Redeemable, Run, DebtFreeRun, Exec, Step, RedeemStep, Get, OddHolders, Closed, Initialize;
    var s0 := Initialize(cfg, now, tokens).value;
    var s, donated := Run(s0, es), Get(tokens, cfg.self) + Donations(s0, es);
    EveryStateIsBacked(cfg, now, tokens, es);
    InitializeBacked(cfg, now, tokens);
    RunKeeps(s0, es, Get(tokens, cfg.self));
    DonationsNonNegative(s0, es);
    NonNegativeAt(tokens, cfg.self);
    NoOddsWhileOpen(s, donated, OddRedeems(s0, es));
    ClosedKeeps(s, Cancelled, s.finalPrice, donated, 0);
    ClosedFields(s, Cancelled, s.finalPrice);
    CancelCall(s, later);
    var t := Step(s, Event(later, Cancel));
    BackedIsRedeemable(t, donated, 0);
    forall a | a in users && a != cfg.self
      ensures Get(RedeemAll(t, users).book.tokens, a) == Get(t.book.tokens, a) + t.book.Total(a) / 2
    {
      RedeemAllEffect(t, users, a);
      HalfPayout(t, a);
    }
    if forall a :: a != cfg.self && 2 <= t.book.Total(a) ==> a in users {
      CancelledDrain(t, users, donated, 0);
    }
  }

  lemma NoOddsWhileOpen(s: State, donated: int, odd: nat)
    requires Backed(s, donated, odd) && s.status == Open
    ensures odd == 0
  {
    hide Sum;
  }

  lemma ClosedFields(s: State, status: Status, finalPrice: int)
    ensures Closed(s, status, finalPrice).status == status && Closed(s, status, finalPrice).cfg == s.cfg
  {
    hide Get, Set;
  }

  lemma HalfPayout(s: State, a: Address)
    requires Redeemable(s) && s.status == Cancelled
    ensures Payout(s, a) == s.book.Total(a) / 2
  {
    hide Sum, Get, NonNegative;
    NonNegativeAt(s.book.yes, a);
    NonNegativeAt(s.book.no, a);
  }

  // ----- the treasury recovers the seed

  /** In every run whose running surplus never falls below zero, cancelling returns at least the
      seed to the treasury. */
  lemma TreasuryRecoversSeed(cfg: Config, now: nat, tokens: Balances, es: seq<Event>, later: nat)
    requires Initialize(cfg, now, tokens).Ok? && NonNegative(tokens) && cfg.treasury != cfg.self
    requires NeverBehind(Initialize(cfg, now, tokens).value, es)
    requires Run(Initialize(cfg, now, tokens).value, es).status == Open
    requires cfg.expiry + cfg.gracePeriod <= later
    ensures var s := Run(Initialize(cfg, now, tokens).value, es);
            var t := Step(s, Event(later, Cancel));
            && Exec(s, Event(later, Cancel)).Ok?
            && Exec(t, Event(later, Redeem(cfg.treasury))).Ok?
            && cfg.initialLiquidity <= Exec(t, Event(later, Redeem(cfg.treasury))).value.1
  {
    hide Backed, NoDebt, Seeded, Redeemable, Run, NeverBehind, Exec, Step, Closed, Initialize, ExecRedeem, X.FeeBps;
    hide Sum;
    hide Payout, Redeemed;
    var s0 := Initialize(cfg, now, tokens).value;
    var s, donated := Run(s0, es), Get(tokens, cfg.self) + Donations(s0, es);
    InitializeBacked(cfg, now, tokens);
    NeverBehindIsSeeded(cfg, now, tokens, es);
    RunKeeps(s0, es, Get(tokens, cfg.self));
    DonationsNonNegative(s0, es);
    NonNegativeAt(tokens, cfg.self);
    InitializePositive(cfg, now, tokens);
    CloseSeeded(s, donated, OddRedeems(s0, es));
    CancelCall(s, later);
    RedeemIff(Closed(s, Cancelled, s.finalPrice), cfg.treasury);
    RedeemCall(Closed(s, Cancelled, s.finalPrice), later, cfg.treasury);
    ClosedFields(s, Cancelled, s.finalPrice);
  }

  lemma CloseSeeded(s: State, donated: int, odd: nat)
    requires Backed(s, donated, odd) && Seeded(s) && s.status == Open && 0 <= donated
    ensures var t := Closed(s, Cancelled, s.finalPrice);
            Redeemable(t) && s.cfg.initialLiquidity <= Payout(t, s.cfg.treasury)
  {
    hide Backed, Redeemable, X.FeeBps, Product, NonNegative;
    var t, treasury := Closed(s, Cancelled, s.finalPrice), s.cfg.treasury;
    SeededBounds(s, donated, odd);
    ClosedKeeps(s, Cancelled, s.finalPrice, donated, odd);
    ClosedFields(s, Cancelled, s.finalPrice);
    BackedIsRedeemable(t, donated, odd);
    HalfPayout(t, treasury);
    NonNegativeAt(s.book.yes, treasury);
    NonNegativeAt(s.book.no, treasury);
    TreasuryTotal(s);
  }

  lemma TreasuryTotal(s: State)
    ensures Closed(s, Cancelled, s.finalPrice).book.Total(s.cfg.treasury) ==
            s.book.Total(s.cfg.treasury) + s.book.poolYes + s.book.poolNo
  {
  }
}
