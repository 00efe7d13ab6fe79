/** The perpetual contract is the market without its clock: every market run without a settlement
    is, call by call, a perpetual run with the same books and the same return values; every
    perpetual run comes from such a market run; and checkpoints can be dropped from any run. */
module Simulation {
  import opened Arithmetic
  import opened CtfMath
  import opened Ledger
  import opened Oracle
  import opened Types
  import M = Market
  import P = Perpetual
  import Redemption
  import Solvency
  import Trading
  import X = Exchange

  /** Same parties, same fee curve, same books; cancelled corresponds to terminated. */
  ghost predicate Sim(m: M.State, p: P.State) {
    && m.cfg.self == p.cfg.self && m.cfg.admin == p.cfg.admin && m.cfg.treasury == p.cfg.treasury
    && m.cfg.baseFeeBps == p.cfg.baseFeeBps && m.cfg.minFeeBps == p.cfg.minFeeBps
    && m.cfg.initialLiquidity == p.cfg.initialLiquidity
    && m.cfg.admin != m.cfg.self && 1 <= m.cfg.expiry
    && (m.status == M.Open <==> p.status == P.Open)
    && (m.status == M.Cancelled <==> p.status == P.Terminated)
    && m.book == p.book
  }

  /** The perpetual call corresponding to a market call (settle has none). */
  function Lower(m: M.State, e: M.Event): P.Event
    requires !e.call.Settle?
  {
    P.Event(e.now,
            match e.call
            case Split(user, amount) => P.Split(user, amount)
            case Merge(user, amount) => P.Merge(user, amount)
            case Buy(user, side, collateral, min) => P.Buy(user, side, collateral, min)
            case Sell(user, side, shares, min) => P.Sell(user, side, shares, min)
            case Transfer(from, to, side, amount) => P.Transfer(from, to, side, amount)
            case Cancel => P.Terminate(m.cfg.admin)
            case Redeem(user) => P.Redeem(user)
            case TokenTransfer(from, to, amount) => P.TokenTransfer(from, to, amount))
  }

  /** The clock gates nothing: trading is still open, or cancelling is already allowed. */
  ghost predicate ClockFits(m: M.State, e: M.Event) {
    && ((e.call.Buy? || e.call.Sell?) && m.status == M.Open ==> e.now < m.cfg.expiry)
    && (e.call.Cancel? ==> m.cfg.expiry + m.cfg.gracePeriod <= e.now)
  }

  /** Two outcomes are the same failure, or the same value in corresponding states. */
  ghost predicate SameOutcome(m: M.Outcome, p: P.Outcome) {
    match (m, p)
    case (Ok((m', v)), Ok((p', w))) => v == w && Sim(m', p')
    case (Err(e), Err(f)) => e == f
    case _ => false
  }

  lemma LockstepPlain(m: M.State, p: P.State, e: M.Event)
    requires Sim(m, p) && (e.call.Split? || e.call.Merge? || e.call.Transfer? || e.call.TokenTransfer?)
    ensures SameOutcome(M.Exec(m, e), P.Exec(p, Lower(m, e)))
  {
    hide Get, Set, Move;
  }

  lemma LockstepTrade(m: M.State, p: P.State, e: M.Event)
    requires Sim(m, p) && (e.call.Buy? || e.call.Sell?) && ClockFits(m, e)
    ensures SameOutcome(M.Exec(m, e), P.Exec(p, Lower(m, e)))
  {
    hide Get, Set, Move, CpmmOut, CpmmSellOut, ApplyFee, EffectiveFeeBps;
  }

  lemma LockstepFinal(m: M.State, p: P.State, e: M.Event)
    requires Sim(m, p) && (e.call.Cancel? || e.call.Redeem?) && ClockFits(m, e)
    ensures SameOutcome(M.Exec(m, e), P.Exec(p, Lower(m, e)))
  {
    hide Get, Set, Move, TruncDiv;
  }

  /** One call: where the clock gates nothing, both contracts fail with the same error or return
      the same value and stay in correspondence. */
  lemma Lockstep(m: M.State, p: P.State, e: M.Event)
    requires Sim(m, p) && !e.call.Settle? && ClockFits(m, e)
    ensures SameOutcome(M.Exec(m, e), P.Exec(p, Lower(m, e)))
  {
    hide Sim, SameOutcome, M.Exec, P.Exec;
    if e.call.Buy? || e.call.Sell? {
      LockstepTrade(m, p, e);
    } else if e.call.Cancel? || e.call.Redeem? {
      LockstepFinal(m, p, e);
    } else {
      LockstepPlain(m, p, e);
    }
  }

  lemma SuccessFitsClock(m: M.State, e: M.Event)
    requires M.Exec(m, e).Ok?
    ensures ClockFits(m, e)
  {
    hide CpmmOut, CpmmSellOut, ApplyFee, EffectiveFeeBps;
  }

  /** The two contracts also quote the same fee and the same prices. */
  lemma SameQuotes(m: M.State, p: P.State)
    requires Sim(m, p)
    ensures m.book.totalSupply != 0 ==> M.FeeBps(m) == X.FeeBps(P.TermsOf(p.cfg), p.book)
    ensures M.PriceBps(m) == P.PriceBps(p)
  {
    hide EffectiveFeeBps, TruncDiv;
  }

  // ----- market runs are perpetual runs

  ghost predicate NeverSettles(m: M.State, es: seq<M.Event>) {
    es == [] ||
    (NeverSettles(m, es[..|es| - 1]) &&
     !(es[|es| - 1].call.Settle? && M.Exec(M.Run(m, es[..|es| - 1]), es[|es| - 1]).Ok?))
  }

  /** The successful calls of a market run, as perpetual calls. */
  function LowerRun(m: M.State, es: seq<M.Event>): seq<P.Event> {
    if es == [] then []
    else
      var before, e := es[..|es| - 1], es[|es| - 1];
      var now := M.Run(m, before);
      LowerRun(m, before) + if M.Exec(now, e).Ok? && !e.call.Settle? then [Lower(now, e)] else []
  }

  /** The values that the successful calls of a market run return. */
  function MarketReturns(m: M.State, es: seq<M.Event>): seq<int> {
    if es == [] then []
    else
      var before := es[..|es| - 1];
      var r := M.Exec(M.Run(m, before), es[|es| - 1]);
      MarketReturns(m, before) + if r.Ok? then [r.value.1] else []
  }

  lemma PerpetualRunSnoc(p: P.State, es: seq<P.Event>, e: P.Event)
    ensures P.Run(p, es + [e]) == P.Step(P.Run(p, es), e)
    ensures P.Returns(p, es + [e]) ==
            P.Returns(p, es) +
            if P.Exec(P.Run(p, es), e).Ok? && !e.call.Checkpoint? then [P.Exec(P.Run(p, es), e).value.1] else []
  {
    hide P.Step, P.Exec;
    assert (es + [e])[..|es|] == es;
  }

  /** Every market run without a settlement is a perpetual run with the same books and returns. */
  lemma {:induction false} MarketRunIsPerpetualRun(m: M.State, p: P.State, es: seq<M.Event>)
    requires Sim(m, p) && NeverSettles(m, es)
    ensures Sim(M.Run(m, es), P.Run(p, LowerRun(m, es)))
    ensures MarketReturns(m, es) == P.Returns(p, LowerRun(m, es))
    ensures |LowerRun(m, es)| == |MarketReturns(m, es)|
  {
    hide Sim, M.Exec, P.Exec, Lower, ClockFits;
    if es != [] {
      var before, e := es[..|es| - 1], es[|es| - 1];
      MarketRunIsPerpetualRun(m, p, before);
      var now := M.Run(m, before);
      if M.Exec(now, e).Ok? {
        SuccessFitsClock(now, e);
        Lockstep(now, P.Run(p, LowerRun(m, before)), e);
        NotCheckpoint(now, e);
        PerpetualRunSnoc(p, LowerRun(m, before), Lower(now, e));
      } else {
        assert LowerRun(m, es) == LowerRun(m, before);
        assert MarketReturns(m, es) == MarketReturns(m, before);
      }
    }
  }

  lemma NotCheckpoint(m: M.State, e: M.Event)
    requires !e.call.Settle?
    ensures !Lower(m, e).call.Checkpoint?
  {
  }

  // ----- perpetual runs come from market runs

  /** The market call, at a time that gates nothing, for a perpetual call other than a checkpoint. */
  function Lift(m: M.State, e: P.Event): M.Event
    requires !e.call.Checkpoint?
  {
    var late := m.cfg.expiry + m.cfg.gracePeriod;
    M.Event(if m.status == M.Open && !e.call.Terminate? && 1 <= m.cfg.expiry then m.cfg.expiry - 1 else late,
            match e.call
            case Split(user, amount) => M.Split(user, amount)
            case Merge(user, amount) => M.Merge(user, amount)
            case Buy(user, side, collateral, min) => M.Buy(user, side, collateral, min)
            case Sell(user, side, shares, min) => M.Sell(user, side, shares, min)
            case Transfer(from, to, side, amount) => M.Transfer(from, to, side, amount)
            case Terminate(_) => M.Cancel
            case Redeem(user) => M.Redeem(user)
            case TokenTransfer(from, to, amount) => M.TokenTransfer(from, to, amount))
  }

  /** The successful calls of a perpetual run, checkpoints aside, as market calls. */
  function LiftRun(m: M.State, p: P.State, es: seq<P.Event>): seq<M.Event> {
    if es == [] then []
    else
      var before, e := es[..|es| - 1], es[|es| - 1];
      var lifted := LiftRun(m, p, before);
      lifted + if P.Exec(P.Run(p, before), e).Ok? && !e.call.Checkpoint? then [Lift(M.Run(m, lifted), e)] else []
  }

  lemma LiftStep(m: M.State, p: P.State, e: P.Event)
    requires Sim(m, p) && !e.call.Checkpoint? && P.Exec(p, e).Ok?
    ensures SameOutcome(M.Exec(m, Lift(m, e)), P.Exec(p, e))
  {
    LiftLowers(m, p, e);
    Lockstep(m, p, Lift(m, e));
    ClockIrrelevant(p, e, Lower(m, Lift(m, e)).now);
    hide Sim, M.Exec, P.Exec;
  }

  lemma LiftLowers(m: M.State, p: P.State, e: P.Event)
    requires Sim(m, p) && !e.call.Checkpoint? && P.Exec(p, e).Ok?
    ensures !Lift(m, e).call.Settle? && ClockFits(m, Lift(m, e)) && Lower(m, Lift(m, e)).call == e.call
  {
    hide X.Split, X.Merge, X.Buy, X.Sell, X.Transfer, X.Redeem, X.TokenTransfer, X.Closed, Get;
  }

  lemma ClockIrrelevant(p: P.State, e: P.Event, now: nat)
    requires !e.call.Checkpoint?
    ensures P.Exec(p, e) == P.Exec(p, P.Event(now, e.call))
  {
    hide X.Buy, X.Sell;
  }

  /** Only prices recorded by checkpoints distinguish the two. */
  function Core(p: P.State): P.State {
    p.(lastPriceCents := 0, lastPriceAt := 0)
  }

  /** A checkpoint writes nothing but the recorded price. */
  lemma CheckpointIsStutter(p: P.State, e: P.Event)
    requires e.call.Checkpoint?
    ensures Core(P.Step(p, e)) == Core(p)
    ensures P.Exec(p, e).Ok? ==> P.Step(p, e).lastPriceAt == e.now
    ensures P.Exec(p, e).Err? ==> P.Step(p, e) == p
  {
    hide P.CheckpointCents;
  }

  lemma {:induction false} PerpetualRunIsMarketRun(m: M.State, p: P.State, es: seq<P.Event>)
    requires Sim(m, p)
    ensures Sim(M.Run(m, LiftRun(m, p, es)), P.Run(p, es))
    ensures MarketReturns(m, LiftRun(m, p, es)) == P.Returns(p, es)
  {
    hide Sim, M.Exec, P.Exec, Lift;
    if es != [] {
      var before, e := es[..|es| - 1], es[|es| - 1];
      PerpetualRunIsMarketRun(m, p, before);
      var lifted := LiftRun(m, p, before);
      if P.Exec(P.Run(p, before), e).Ok? && !e.call.Checkpoint? {
        LiftStep(M.Run(m, lifted), P.Run(p, before), e);
        MarketRunSnoc(m, lifted, Lift(M.Run(m, lifted), e));
      } else {
        if e.call.Checkpoint? {
          CheckpointIsStutter(P.Run(p, before), e);
        }
        assert LiftRun(m, p, es) == lifted;
        assert P.Returns(p, es) == P.Returns(p, before);
        SimOfCore(M.Run(m, lifted), P.Run(p, before), P.Run(p, es));
      }
    }
  }

  lemma SimOfCore(m: M.State, p: P.State, q: P.State)
    requires Sim(m, p) && Core(p) == Core(q)
    ensures Sim(m, q)
  {
  }

  lemma MarketRunSnoc(m: M.State, es: seq<M.Event>, e: M.Event)
    ensures M.Run(m, es + [e]) == M.Step(M.Run(m, es), e)
    ensures MarketReturns(m, es + [e]) ==
            MarketReturns(m, es) + if M.Exec(M.Run(m, es), e).Ok? then [M.Exec(M.Run(m, es), e).value.1] else []
  {
    hide M.Step, M.Exec;
    assert (es + [e])[..|es|] == es;
  }

  // ----- checkpoints can be dropped

  function WithoutCheckpoints(es: seq<P.Event>): seq<P.Event> {
    if es == [] then []
    else WithoutCheckpoints(es[..|es| - 1]) + if es[|es| - 1].call.Checkpoint? then [] else [es[|es| - 1]]
  }

  /** Calls other than checkpoints neither see nor touch the recorded price. */
  lemma PriceUnseen(p: P.State, q: P.State, e: P.Event)
    requires Core(p) == Core(q) && !e.call.Checkpoint?
    ensures Core(P.Step(p, e)) == Core(P.Step(q, e))
    ensures P.Exec(p, e).Ok? <==> P.Exec(q, e).Ok?
    ensures P.Exec(p, e).Ok? ==> P.Exec(p, e).value.1 == P.Exec(q, e).value.1
    ensures P.Exec(p, e).Err? ==> P.Exec(p, e) == P.Exec(q, e)
  {
    hide X.Buy, X.Sell, Get, Set, Move, TruncDiv;
    if e.call.Buy? || e.call.Sell? {
      PriceUnseenByTrades(p, q, e);
    }
  }

  lemma PriceUnseenByTrades(p: P.State, q: P.State, e: P.Event)
    requires Core(p) == Core(q) && (e.call.Buy? || e.call.Sell?)
    ensures Core(P.Step(p, e)) == Core(P.Step(q, e))
    ensures P.Exec(p, e).Ok? <==> P.Exec(q, e).Ok?
    ensures P.Exec(p, e).Ok? ==> P.Exec(p, e).value.1 == P.Exec(q, e).value.1
    ensures P.Exec(p, e).Err? ==> P.Exec(p, e) == P.Exec(q, e)
  {
    hide Get, Set, Move, CpmmOut, CpmmSellOut, ApplyFee, EffectiveFeeBps, TruncDiv;
  }

  /** Removing every checkpoint from a run (or inserting some anywhere) changes no return value
      and nothing of the final state but the recorded price. */
  lemma {:induction false} CheckpointsChangeNothing(p: P.State, es: seq<P.Event>)
    ensures Core(P.Run(p, es)) == Core(P.Run(p, WithoutCheckpoints(es)))
    ensures P.Returns(p, es) == P.Returns(p, WithoutCheckpoints(es))
  {
    hide P.Step, P.Exec, Core;
    if es != [] {
      var before, e := es[..|es| - 1], es[|es| - 1];
      CheckpointsChangeNothing(p, before);
      if e.call.Checkpoint? {
        CheckpointIsStutter(P.Run(p, before), e);
        assert WithoutCheckpoints(es) == WithoutCheckpoints(before);
        assert P.Returns(p, es) == P.Returns(p, before);
      } else {
        PriceUnseen(P.Run(p, before), P.Run(p, WithoutCheckpoints(before)), e);
        PerpetualRunSnoc(p, WithoutCheckpoints(before), e);
      }
    }
  }

  // ----- what the perpetual contract inherits

  /** A market with the same parties and fees whose clock has one tick of trading and one of
      grace. */
  function MarketConfig(cfg: P.Config): M.Config {
    M.Config(cfg.self, cfg.admin, cfg.treasury, 1, 1, 1, 1, cfg.baseFeeBps, cfg.minFeeBps, cfg.initialLiquidity,
             Leg(0, 0, 2, 0), None)
  }

  function MarketStatus(status: P.Status): M.Status {
    match status
    case Open => M.Open
    case Terminated => M.Cancelled
  }

  /** The market state that a perpetual state stands for. */
  function Image(p: P.State): M.State {
    M.State(MarketConfig(p.cfg), MarketStatus(p.status), 0, p.book)
  }

  lemma InitializeImage(cfg: P.Config, tokens: Balances)
    requires P.Initialize(cfg, tokens).Ok?
    ensures cfg.admin != cfg.self && 1 <= cfg.initialLiquidity
    ensures M.Initialize(MarketConfig(cfg), 0, tokens).Ok? && P.Initialize(cfg, tokens).value.cfg == cfg
    ensures M.Initialize(MarketConfig(cfg), 0, tokens).value == Image(P.Initialize(cfg, tokens).value)
  {
    hide Get, Set, Move;
  }

  /** The call succeeds and is not a checkpoint: the market has a counterpart. */
  predicate Lifts(p: P.State, e: P.Event) {
    P.Exec(p, e).Ok? && !e.call.Checkpoint?
  }

  /** The image of a step is the counterpart's step, or no step at all. */
  lemma ImageStep(p: P.State, e: P.Event)
    requires p.cfg.admin != p.cfg.self
    ensures P.Step(p, e).cfg == p.cfg
    ensures Lifts(p, e) ==>
              M.Exec(Image(p), Lift(Image(p), e)).Ok? &&
              M.Step(Image(p), Lift(Image(p), e)) == Image(P.Step(p, e))
    ensures !Lifts(p, e) ==> Image(P.Step(p, e)) == Image(p)
  {
    hide M.Exec, P.Exec, Lift;
    ConfigFixedStep(p, e);
    if Lifts(p, e) {
      LiftStep(Image(p), p, e);
      LiftLowers(Image(p), p, e);
      Solvency.ConfigFixed(Image(p), Lift(Image(p), e));
      FinalPriceKept(Image(p), Lift(Image(p), e));
    } else if e.call.Checkpoint? {
      CheckpointIsStutter(p, e);
    }
  }

  lemma FinalPriceKept(m: M.State, e: M.Event)
    requires !e.call.Settle?
    ensures M.Step(m, e).finalPrice == m.finalPrice
  {
    hide CpmmOut, CpmmSellOut, ApplyFee, EffectiveFeeBps, Get, Set, Move;
  }

  lemma ConfigFixedStep(p: P.State, e: P.Event)
    ensures P.Step(p, e).cfg == p.cfg
  {
    hide CpmmOut, CpmmSellOut, ApplyFee, EffectiveFeeBps, P.CheckpointCents, Get, Set, Move;
  }

  // ----- the same tallies

  /** Collateral sent to the contract outside its own entrypoints. */
  function Donation(p: P.State, e: P.Event): int {
    if P.Exec(p, e).Ok? && e.call.TokenTransfer? && e.call.to == p.cfg.self then e.call.amount else 0
  }

  /** A redemption that rounds half a unit down. */
  function OddRedeem(p: P.State, e: P.Event): nat {
    if P.Exec(p, e).Ok? && e.call.Redeem? && p.book.Total(e.call.user) % 2 == 1 then 1 else 0
  }

  /** A buy that leaves no debt, read off its quote. */
  ghost predicate DebtFree(p: P.State, e: P.Event) {
    e.call.Buy? && P.Exec(p, e).Ok? ==>
      var (rin, rout, eff) := X.BuyQuote(P.TermsOf(p.cfg), p.book, e.call.side, e.call.collateral);
      -(rin + eff) * (p.book.Bal(e.call.side, e.call.user) + e.call.collateral + 1) < rout * eff
  }

  /** What the counterpart of the call adds to the pool product, times four. */
  function Surplus4(p: P.State, e: P.Event): int {
    if Lifts(p, e) then Trading.Surplus4(Image(p), Lift(Image(p), e)) else 0
  }

  function Donations(p: P.State, es: seq<P.Event>): int {
    if es == [] then 0
    else Donations(p, es[..|es| - 1]) + Donation(P.Run(p, es[..|es| - 1]), es[|es| - 1])
  }

  function OddRedeems(p: P.State, es: seq<P.Event>): nat {
    if es == [] then 0
    else OddRedeems(p, es[..|es| - 1]) + OddRedeem(P.Run(p, es[..|es| - 1]), es[|es| - 1])
  }

  ghost predicate DebtFreeRun(p: P.State, es: seq<P.Event>) {
    es == [] || (DebtFreeRun(p, es[..|es| - 1]) && DebtFree(P.Run(p, es[..|es| - 1]), es[|es| - 1]))
  }

  function TotalSurplus4(p: P.State, es: seq<P.Event>): int {
    if es == [] then 0
    else TotalSurplus4(p, es[..|es| - 1]) + Surplus4(P.Run(p, es[..|es| - 1]), es[|es| - 1])
  }

  ghost predicate NeverBehind(p: P.State, es: seq<P.Event>) {
    && (P.Run(p, es).status == P.Open ==> 0 <= TotalSurplus4(p, es))
    && (es == [] || NeverBehind(p, es[..|es| - 1]))
  }

  lemma SameTallies(p: P.State, e: P.Event)
    requires p.cfg.admin != p.cfg.self && Lifts(p, e)
    ensures var m, lifted := Image(p), Lift(Image(p), e);
            && Solvency.Donation(m, lifted) == Donation(p, e)
            && Solvency.OddRedeem(m, lifted) == OddRedeem(p, e)
            && (Solvency.DebtFree(m, lifted) <==> DebtFree(p, e))
  {
    hide M.Exec, P.Exec, M.Step, P.Step, X.FeeBps, ApplyFee, Get;
    ImageStep(p, e);
    SameCall(p, e);
  }

  /** The counterpart's call, with the same arguments. */
  lemma SameCall(p: P.State, e: P.Event)
    requires !e.call.Checkpoint?
    ensures var call := Lift(Image(p), e).call;
            && (e.call.TokenTransfer? <==> call.TokenTransfer?) && (e.call.Redeem? <==> call.Redeem?)
            && (e.call.Buy? <==> call.Buy?)
            && (e.call.TokenTransfer? ==> call.to == e.call.to && call.amount == e.call.amount)
            && (e.call.Redeem? ==> call.user == e.call.user)
            && (e.call.Buy? ==> call.user == e.call.user && call.side == e.call.side
                                && call.collateral == e.call.collateral)
    ensures e.call.Redeem? && P.Exec(p, e).Ok? ==> p.status == P.Terminated
    ensures e.call.Buy? && P.Exec(p, e).Ok? ==> p.book.totalSupply != 0
    ensures Image(p).book == p.book && M.TermsOf(Image(p).cfg) == P.TermsOf(p.cfg)
  {
    hide X.Split, X.Merge, X.Sell, X.Transfer, X.TokenTransfer, X.Redeem, CpmmOut, ApplyFee, EffectiveFeeBps;
  }

  lemma NoTallies(p: P.State, e: P.Event)
    requires !Lifts(p, e)
    ensures Donation(p, e) == 0 && OddRedeem(p, e) == 0 && DebtFree(p, e)
  {
    hide P.Exec;
  }

  /** A run seen through its image: the market reaches the image of every state, with the same
      donations, odd redemptions, debt-free buys and surpluses. */
  lemma {:induction false} ImageRun(p: P.State, es: seq<P.Event>)
    requires p.cfg.admin != p.cfg.self
    ensures P.Run(p, es).cfg == p.cfg
    ensures var m, lifted := Image(p), LiftRun(Image(p), p, es);
            && M.Run(m, lifted) == Image(P.Run(p, es))
            && Solvency.Donations(m, lifted) == Donations(p, es)
            && Solvency.OddRedeems(m, lifted) == OddRedeems(p, es)
            && (Solvency.DebtFreeRun(m, lifted) <==> DebtFreeRun(p, es))
            && Trading.TotalSurplus4(m, lifted) == TotalSurplus4(p, es)
  {
    hide P.Exec, P.Step, M.Step, Image, Lift, Donation, OddRedeem, DebtFree, Solvency.Donation, Solvency.OddRedeem,
         Solvency.DebtFree, Trading.Surplus4;
    if es != [] {
      var before, e := es[..|es| - 1], es[|es| - 1];
      var now, lifted := P.Run(p, before), LiftRun(Image(p), p, before);
      ImageRun(p, before);
      ImageStep(now, e);
      if Lifts(now, e) {
        SameTallies(now, e);
        assert (lifted + [Lift(Image(now), e)])[..|lifted|] == lifted;
      } else {
        NoTallies(now, e);
        assert LiftRun(Image(p), p, es) == lifted;
      }
    }
  }

  lemma {:induction false} ImageNeverBehind(p: P.State, es: seq<P.Event>)
    requires p.cfg.admin != p.cfg.self && NeverBehind(p, es)
    ensures Trading.NeverBehind(Image(p), LiftRun(Image(p), p, es))
  {
    hide P.Exec, P.Run, M.Run, Lift, TotalSurplus4, Trading.TotalSurplus4;
    ImageRun(p, es);
    if es != [] {
      var before, e := es[..|es| - 1], es[|es| - 1];
      var lifted := LiftRun(Image(p), p, before);
      ImageNeverBehind(p, before);
      if Lifts(P.Run(p, before), e) {
        assert (lifted + [Lift(M.Run(Image(p), lifted), e)])[..|lifted|] == lifted;
      } else {
        assert LiftRun(Image(p), p, es) == lifted;
      }
    }
  }

  // ----- what the perpetual contract inherits

  /** In every reachable state of the perpetual contract the books balance exactly as the market's
      do: a terminated contract's shares and odd redemptions make up twice its supply, and the
      collateral is the supply plus what was donated. */
  lemma PerpetualIsBacked(cfg: P.Config, tokens: Balances, es: seq<P.Event>)
    requires P.Initialize(cfg, tokens).Ok?
    ensures var p0 := P.Initialize(cfg, tokens).value;
            var p := P.Run(p0, es);
            && p.cfg == cfg
            && Solvency.Backed(Image(p), Get(tokens, cfg.self) + Donations(p0, es), OddRedeems(p0, es))
            && Sum(p.book.tokens) == Sum(tokens)
            && (DebtFreeRun(p0, es) ==> Solvency.NoDebt(Image(p)))
    ensures 0 <= Donations(P.Initialize(cfg, tokens).value, es)
  {
    hide P.Initialize, M.Initialize, Sum, Solvency.Backed, Solvency.NoDebt, Solvency.DebtFreeRun, Solvency.Donations,
         Solvency.OddRedeems, Donations, OddRedeems, DebtFreeRun, P.Run, M.Run, LiftRun, Get;
    InitializeImage(cfg, tokens);
    var p0 := P.Initialize(cfg, tokens).value;
    var lifted := LiftRun(Image(p0), p0, es);
    ImageRun(p0, es);
    Solvency.EveryStateIsBacked(MarketConfig(cfg), 0, tokens, lifted);
    Redemption.DonationsNonNegative(Image(p0), lifted);
  }

  lemma TerminatedIsRedeemable(cfg: P.Config, tokens: Balances, es: seq<P.Event>)
    requires P.Initialize(cfg, tokens).Ok? && NonNegative(tokens)
    requires DebtFreeRun(P.Initialize(cfg, tokens).value, es)
    requires P.Run(P.Initialize(cfg, tokens).value, es).status == P.Terminated
    ensures Redemption.Redeemable(Image(P.Run(P.Initialize(cfg, tokens).value, es)))
  {
    hide P.Initialize, P.Run, DebtFreeRun, Donations, OddRedeems, Solvency.Backed, Solvency.NoDebt, Get,
         Redemption.Redeemable;
    PerpetualIsBacked(cfg, tokens, es);
    NonNegativeAt(tokens, cfg.self);
    var p0 := P.Initialize(cfg, tokens).value;
    Redemption.BackedIsRedeemable(Image(P.Run(p0, es)), Get(tokens, cfg.self) + Donations(p0, es), OddRedeems(p0, es));
  }

  /** After terminate, in every reachable state, debts or not: a redemption succeeds exactly when
      half of all shares held is at least one unit and covered by the collateral, and pays it. */
  lemma PerpetualRedeemIff(cfg: P.Config, tokens: Balances, es: seq<P.Event>, later: nat, user: Address)
    requires P.Initialize(cfg, tokens).Ok?
    requires P.Run(P.Initialize(cfg, tokens).value, es).status == P.Terminated
    ensures var p0 := P.Initialize(cfg, tokens).value;
            var p := P.Run(p0, es);
            var r := P.Exec(p, P.Event(later, P.Redeem(user)));
            && (r.Ok? <==> user != cfg.self && 2 <= p.book.Total(user)
                           && p.book.Total(user) / 2 <= p.book.totalSupply + Get(tokens, cfg.self) + Donations(p0, es))
            && (r.Ok? ==> r.value.1 == p.book.Total(user) / 2)
  {
    hide P.Initialize, P.Run, P.Exec, M.Exec, M.ExecRedeem, M.Redeemed, Donations, OddRedeems, Solvency.Backed,
         Solvency.NoDebt, Get, DebtFreeRun;
    var p0 := P.Initialize(cfg, tokens).value;
    var p := P.Run(p0, es);
    InitializeImage(cfg, tokens);
    PerpetualIsBacked(cfg, tokens, es);
    Redemption.CoveredRedeemIff(Image(p), user, Get(tokens, cfg.self) + Donations(p0, es), OddRedeems(p0, es));
    Redemption.RedeemCall(Image(p), later, user);
    LockstepFinal(Image(p), p, M.Event(later, M.Redeem(user)));
  }

  /** A perpetual call that keeps the supply at the seed or above, by its counterpart's quote. */
  ghost predicate KeepsSeed(p: P.State, e: P.Event) {
    Lifts(p, e) ==> Trading.KeepsSeed(Image(p), Lift(Image(p), e))
  }

  ghost predicate KeepsSeedRun(p: P.State, es: seq<P.Event>) {
    es == [] ||
    (KeepsSeedRun(p, es[..|es| - 1]) &&
     var before := P.Run(p, es[..|es| - 1]);
     (before.status == P.Open ==> KeepsSeed(before, es[|es| - 1])))
  }

  /** The supply never falls below the seed while the contract is open. */
  ghost predicate SupplyKept(p: P.State, es: seq<P.Event>) {
    && (P.Run(p, es).status == P.Open ==> p.cfg.initialLiquidity <= P.Run(p, es).book.totalSupply)
    && (es == [] || SupplyKept(p, es[..|es| - 1]))
  }

  /** The fee curve's promise, which the perpetual contract relies on as well, holds of exactly the
      runs that make no merge and no sell that its quote forbids. */
  lemma {:induction false} PerpetualSeedPromiseIff(cfg: P.Config, tokens: Balances, es: seq<P.Event>)
    requires P.Initialize(cfg, tokens).Ok?
    ensures var p0 := P.Initialize(cfg, tokens).value;
            SupplyKept(p0, es) <==> KeepsSeedRun(p0, es)
    decreases |es|
  {
    hide P.Initialize, P.Run, P.Step, P.Exec, Donations, OddRedeems, Solvency.Backed, Solvency.NoDebt, KeepsSeed, Get;
    var p0 := P.Initialize(cfg, tokens).value;
    InitializeImage(cfg, tokens);
    if es == [] {
      SeedAtStart(cfg, tokens);
    } else {
      var before, e := es[..|es| - 1], es[|es| - 1];
      var p := P.Run(p0, before);
      PerpetualSeedPromiseIff(cfg, tokens, before);
      PerpetualIsBacked(cfg, tokens, before);
      assert es == before + [e];
      PerpetualRunSnoc(p0, before, e);
      StepKeepsSeedIff(p, e, Get(tokens, cfg.self) + Donations(p0, before), OddRedeems(p0, before));
    }
  }

  lemma SeedAtStart(cfg: P.Config, tokens: Balances)
    requires P.Initialize(cfg, tokens).Ok?
    ensures var p0 := P.Initialize(cfg, tokens).value;
            P.Run(p0, []) == p0 && p0.book.totalSupply == p0.cfg.initialLiquidity
  {
    hide Get, Set, Move;
  }

  lemma StepKeepsSeedIff(p: P.State, e: P.Event, donated: int, odd: nat)
    requires p.cfg.admin != p.cfg.self && Solvency.Backed(Image(p), donated, odd)
    ensures P.Step(p, e).cfg == p.cfg
    ensures p.status != P.Open ==> P.Step(p, e).status != P.Open
    ensures p.status == P.Open && P.Step(p, e).status != P.Open && p.cfg.initialLiquidity <= p.book.totalSupply ==>
              KeepsSeed(p, e)
    ensures p.status == P.Open && p.cfg.initialLiquidity <= p.book.totalSupply ==>
              (p.cfg.initialLiquidity <= P.Step(p, e).book.totalSupply <==> KeepsSeed(p, e))
  {
    hide P.Exec, P.Step, M.Exec, M.Step, Lift, Solvency.Backed, Trading.KeepsSeed;
    ImageStep(p, e);
    if Lifts(p, e) {
      var lifted := Lift(Image(p), e);
      if p.status == P.Open {
        if p.cfg.initialLiquidity <= p.book.totalSupply {
          Trading.KeepsSeedIff(Image(p), lifted, donated, odd);
        }
        if P.Step(p, e).status != P.Open {
          Trading.ClosingKeepsSupply(Image(p), lifted);
        }
      } else {
        Trading.StaysClosed(Image(p), lifted);
      }
    }
  }

  /** With debt-free buys, a holder can redeem exactly when holding at least two shares. */
  lemma PerpetualStarvesNobody(cfg: P.Config, tokens: Balances, es: seq<P.Event>, later: nat, user: Address)
    requires P.Initialize(cfg, tokens).Ok? && NonNegative(tokens)
    requires DebtFreeRun(P.Initialize(cfg, tokens).value, es)
    requires P.Run(P.Initialize(cfg, tokens).value, es).status == P.Terminated
    ensures var p := P.Run(P.Initialize(cfg, tokens).value, es);
            var r := P.Exec(p, P.Event(later, P.Redeem(user)));
            && (r.Ok? <==> user != cfg.self && 2 <= p.book.Total(user))
            && (r.Ok? ==> r.value.1 == p.book.Total(user) / 2)
  {
    hide P.Initialize, P.Run, P.Exec, DebtFreeRun, Get, Redemption.Redeemable, Image;
    InitializeImage(cfg, tokens);
    ImageRun(P.Initialize(cfg, tokens).value, es);
    TerminatedIsRedeemable(cfg, tokens, es);
    RedeemHalf(P.Run(P.Initialize(cfg, tokens).value, es), later, user);
  }

  lemma RedeemHalf(p: P.State, now: nat, user: Address)
    requires p.status == P.Terminated && p.cfg.admin != p.cfg.self && Redemption.Redeemable(Image(p))
    ensures var r := P.Exec(p, P.Event(now, P.Redeem(user)));
            && M.Payout(Image(p), user) == p.book.Total(user) / 2
            && (r.Ok? <==> user != p.cfg.self && 2 <= p.book.Total(user))
            && (r.Ok? ==> r.value.1 == p.book.Total(user) / 2)
  {
    hide P.Exec, M.Exec, M.ExecRedeem, M.Payout, M.Redeemed, Get, Redemption.Redeemable;
    Redemption.RedeemIff(Image(p), user);
    Redemption.HalfPayout(Image(p), user);
    Redemption.RedeemCall(Image(p), now, user);
    LockstepFinal(Image(p), p, M.Event(now, M.Redeem(user)));
  }

  /** The calls `es`, at whatever times, are the redemptions of `users` in that order. */
  ghost predicate IsQueue(es: seq<P.Event>, users: seq<Address>) {
    |es| == |users| && forall i :: 0 <= i < |es| ==> es[i].call == P.Redeem(users[i])
  }

  lemma ImageRedeem(p: P.State, e: P.Event, user: Address)
    requires p.status == P.Terminated && e.call == P.Redeem(user)
    ensures Image(P.Step(p, e)) == Redemption.RedeemStep(Image(p), user)
    ensures P.Step(p, e) == p.(book := P.Step(p, e).book)
  {
    hide Get, Set, Move, TruncDiv;
  }

  lemma {:induction false} ImageQueue(p: P.State, es: seq<P.Event>, users: seq<Address>)
    requires p.status == P.Terminated && IsQueue(es, users)
    ensures Image(P.Run(p, es)) == Redemption.RedeemAll(Image(p), users)
    ensures P.Run(p, es) == p.(book := P.Run(p, es).book)
    decreases |es|
  {
    hide P.Step, Redemption.RedeemStep, Image;
    if es != [] {
      var n := |es| - 1;
      ImageQueue(p, es[..n], users[..n]);
      ImageRedeem(P.Run(p, es[..n]), es[n], users[n]);
      Redemption.RedeemAllSnoc(Image(p), users[..n], users[n]);
      assert users == users[..n] + [users[n]];
    } else {
      assert users == [];
    }
  }

  /** After terminate, from every reachable state, the order of redemptions is immaterial: the same
      people redeeming in another order, at other times, end in the same state. */
  lemma PerpetualOrderIndependent(cfg: P.Config, tokens: Balances, es: seq<P.Event>,
                                  fs: seq<P.Event>, users: seq<Address>, gs: seq<P.Event>, others: seq<Address>)
    requires P.Initialize(cfg, tokens).Ok? && NonNegative(tokens)
    requires DebtFreeRun(P.Initialize(cfg, tokens).value, es)
    requires P.Run(P.Initialize(cfg, tokens).value, es).status == P.Terminated
    requires IsQueue(fs, users) && IsQueue(gs, others) && multiset(users) == multiset(others)
    ensures var p := P.Run(P.Initialize(cfg, tokens).value, es);
            P.Run(p, fs) == P.Run(p, gs)
  {
    hide P.Initialize, P.Run, DebtFreeRun, Redemption.Redeemable, Redemption.RedeemAll;
    var p := P.Run(P.Initialize(cfg, tokens).value, es);
    TerminatedIsRedeemable(cfg, tokens, es);
    ImageQueue(p, fs, users);
    ImageQueue(p, gs, others);
    Redemption.OrderIndependent(Image(p), users, others);
  }

  /** ... and each is paid half of all shares held, until twice the supply left is the number of
      odd redemptions of the whole run, plus the holders still odd, plus the contract's own shares. */
  lemma PerpetualDrain(cfg: P.Config, tokens: Balances, es: seq<P.Event>, fs: seq<P.Event>, users: seq<Address>)
    requires P.Initialize(cfg, tokens).Ok? && NonNegative(tokens)
    requires DebtFreeRun(P.Initialize(cfg, tokens).value, es)
    requires P.Run(P.Initialize(cfg, tokens).value, es).status == P.Terminated && IsQueue(fs, users)
    ensures var p0 := P.Initialize(cfg, tokens).value;
            var p := P.Run(p0, es);
            var q := P.Run(p, fs);
            && (forall a :: a in users && a != cfg.self ==>
                  Get(q.book.tokens, a) == Get(p.book.tokens, a) + p.book.Total(a) / 2)
            && ((forall a :: a != cfg.self && 2 <= p.book.Total(a) ==> a in users) ==>
                  2 * q.book.totalSupply ==
                  OddRedeems(p0, es) + |Redemption.OddHolders(Image(p))| + p.book.Total(cfg.self))
  {
    hide P.Initialize, P.Run, DebtFreeRun, Donations, OddRedeems, Redemption.Redeemable, Redemption.RedeemAll,
         Redemption.OddHolders, Solvency.Backed, Solvency.NoDebt, Get, M.Payout;
    var p0 := P.Initialize(cfg, tokens).value;
    var p := P.Run(p0, es);
    PerpetualIsBacked(cfg, tokens, es);
    NonNegativeAt(tokens, cfg.self);
    TerminatedIsRedeemable(cfg, tokens, es);
    ImageQueue(p, fs, users);
    forall a | a in users && a != cfg.self
      ensures Get(P.Run(p, fs).book.tokens, a) == Get(p.book.tokens, a) + p.book.Total(a) / 2
    {
      Redemption.RedeemAllEffect(Image(p), users, a);
      Redemption.HalfPayout(Image(p), a);
    }
    if forall a :: a != cfg.self && 2 <= p.book.Total(a) ==> a in users {
      var donated := Get(tokens, cfg.self) + Donations(p0, es);
      Redemption.CancelledDrain(Image(p), users, donated, OddRedeems(p0, es));
    }
  }

  /** From every reachable open state in which the running surplus never fell below zero, the
      admin can terminate, and the treasury then recovers at least the seed. */
  lemma PerpetualRecoversSeed(cfg: P.Config, tokens: Balances, es: seq<P.Event>, later: nat)
    requires P.Initialize(cfg, tokens).Ok? && NonNegative(tokens) && cfg.treasury != cfg.self
    requires NeverBehind(P.Initialize(cfg, tokens).value, es)
    requires P.Run(P.Initialize(cfg, tokens).value, es).status == P.Open
    ensures var p := P.Run(P.Initialize(cfg, tokens).value, es);
            var end, redeem := P.Event(later, P.Terminate(cfg.admin)), P.Event(later, P.Redeem(cfg.treasury));
            && P.Exec(p, end).Ok?
            && P.Exec(P.Step(p, end), redeem).Ok?
            && cfg.initialLiquidity <= P.Exec(P.Step(p, end), redeem).value.1
  {
    hide P.Initialize, M.Initialize, P.Run, M.Run, NeverBehind, Trading.NeverBehind, Trading.Seeded, Solvency.Backed,
         Solvency.NoDebt, Redemption.Redeemable, M.Closed, X.Closed, M.Payout, Get, Donations, OddRedeems, LiftRun,
         P.Exec, P.Step;
    var p0 := P.Initialize(cfg, tokens).value;
    var p := P.Run(p0, es);
    InitializeImage(cfg, tokens);
    ImageRun(p0, es);
    ImageNeverBehind(p0, es);
    PerpetualIsBacked(cfg, tokens, es);
    NonNegativeAt(tokens, cfg.self);
    Trading.NeverBehindIsSeeded(MarketConfig(cfg), 0, tokens, LiftRun(Image(p0), p0, es));
    Redemption.CloseSeeded(Image(p), Get(tokens, cfg.self) + Donations(p0, es), OddRedeems(p0, es));
    ImageTerminate(p, later);
    var q := P.Step(p, P.Event(later, P.Terminate(cfg.admin)));
    RedeemHalf(q, later, cfg.treasury);
  }

  lemma ImageTerminate(p: P.State, now: nat)
    requires p.status == P.Open && p.cfg.admin != p.cfg.self
    ensures var e := P.Event(now, P.Terminate(p.cfg.admin));
            && P.Exec(p, e).Ok? && P.Step(p, e).cfg == p.cfg && P.Step(p, e).status == P.Terminated
            && Image(P.Step(p, e)) == M.Closed(Image(p), M.Cancelled, 0)
  {
    hide X.Closed;
  }
}
