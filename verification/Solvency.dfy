/** What every call keeps, and hence what holds in every state of every run: each side's shares
    are conserved, the collateral covers the supply, reserves stay positive while open, and no
    balance becomes negative exactly as long as no buy's quote eats more than its buyer holds. */
module Solvency {
  import opened Arithmetic
  import opened CtfMath
  import opened Ledger
  import opened Market
  import opened Types
  import X = Exchange

  ghost predicate ValidConfig(cfg: Config) {
    cfg.minFeeBps <= cfg.baseFeeBps <= MAX_FEE_BPS && 1 <= cfg.initialLiquidity && 1 <= cfg.expiry
  }

  /** `donated` is collateral the contract holds on top of the supply, sent to it outside its own
      entrypoints; `odd` counts redemptions of a cancelled market that rounded half a unit down. */
  ghost predicate Backed(s: State, donated: int, odd: nat) {
    && ValidConfig(s.cfg)
    && Get(s.book.tokens, s.cfg.self) == s.book.totalSupply + donated
    && match s.status {
      case Open =>
        && odd == 0 && 1 <= s.book.poolYes && 1 <= s.book.poolNo
        && s.book.poolYes + Sum(s.book.yes) == s.book.totalSupply
        && s.book.poolNo + Sum(s.book.no) == s.book.totalSupply
      case ResolvedYes => odd == 0 && PoolsEmpty(s) && Sum(s.book.yes) == s.book.totalSupply
      case ResolvedNo => odd == 0 && PoolsEmpty(s) && Sum(s.book.no) == s.book.totalSupply
      case Cancelled => PoolsEmpty(s) && Sum(s.book.yes) + Sum(s.book.no) + odd == 2 * s.book.totalSupply
    }
  }

  ghost predicate PoolsEmpty(s: State) {
    s.book.poolYes == 0 && s.book.poolNo == 0
  }

  ghost predicate NoDebt(s: State) {
    NonNegative(s.book.yes) && NonNegative(s.book.no)
  }

  function Donation(s: State, e: Event): int {
    if Exec(s, e).Ok? && e.call.TokenTransfer? && e.call.to == s.cfg.self then e.call.amount else 0
  }

  function OddRedeem(s: State, e: Event): nat {
    if Exec(s, e).Ok? && e.call.Redeem? && s.status == Cancelled && s.book.Total(e.call.user) % 2 == 1 then 1 else 0
  }

  function Donations(s: State, es: seq<Event>): int {
    if es == [] then 0
    else
      var before := es[..|es| - 1];
      Donations(s, before) + Donation(Run(s, before), es[|es| - 1])
  }

  function OddRedeems(s: State, es: seq<Event>): nat {
    if es == [] then 0
    else
      var before := es[..|es| - 1];
      OddRedeems(s, before) + OddRedeem(Run(s, before), es[|es| - 1])
  }

  /** A buy that leaves no debt, read off its quote alone: the swap output, which is negative when
      the fee exceeds the whole amount, does not eat more than the buyer then holds. */
  ghost predicate DebtFree(s: State, e: Event) {
    e.call.Buy? && Exec(s, e).Ok? ==>
      var (rin, rout, eff) := BuyQuote(s, e.call.side, e.call.collateral);
      -(rin + eff) * (s.book.Bal(e.call.side, e.call.user) + e.call.collateral + 1) < rout * eff
  }

  ghost predicate DebtFreeRun(s: State, es: seq<Event>) {
    es == [] || (DebtFreeRun(s, es[..|es| - 1]) && DebtFree(Run(s, es[..|es| - 1]), es[|es| - 1]))
  }

  ghost predicate NeverInDebt(s: State, es: seq<Event>) {
    NoDebt(Run(s, es)) && (es == [] || NeverInDebt(s, es[..|es| - 1]))
  }

  // ----- one call

  lemma SumPaid(b: Book, from: Address, to: Address, amount: int, a: Address)
    ensures Sum(b.Pay(from, to, amount).tokens) == Sum(b.tokens)
    ensures Get(b.Pay(from, to, amount).tokens, a) ==
            Get(b.tokens, a) - (if a == from then amount else 0) + (if a == to then amount else 0)
  {
    SumMove(b.tokens, from, to, amount);
  }

  lemma SumWithBal(b: Book, side: Prediction, a: Address, v: int)
    ensures Sum(b.WithBal(side, a, v).Shares(side)) == Sum(b.Shares(side)) - b.Bal(side, a) + v
    ensures NonNegative(b.Shares(side)) && 0 <= v ==> NonNegative(b.WithBal(side, a, v).Shares(side))
  {
    SumSet(b.Shares(side), a, v);
  }

  lemma MintedKeeps(s: State, user: Address, amount: int, donated: int, odd: nat)
    requires Backed(s, donated, odd) && s.status == Open && user != s.cfg.self && 1 <= amount
    ensures Backed(Minted(s, user, amount), donated, odd)
    ensures Sum(Minted(s, user, amount).book.tokens) == Sum(s.book.tokens)
    ensures NoDebt(s) ==> NoDebt(Minted(s, user, amount))
  {
    hide Sum, Get, Set, Move;
    SumPaid(s.book, user, s.cfg.self, amount, s.cfg.self);
    SumCredit(s.book, Yes, user, amount);
    SumCredit(s.book, No, user, amount);
  }

  lemma BurnedKeeps(s: State, user: Address, amount: int, donated: int, odd: nat)
    requires Backed(s, donated, odd) && s.status == Open && user != s.cfg.self
    requires 1 <= amount <= s.book.Bal(Yes, user) && amount <= s.book.Bal(No, user)
    ensures Backed(Burned(s, user, amount), donated, odd)
    ensures Sum(Burned(s, user, amount).book.tokens) == Sum(s.book.tokens)
    ensures NoDebt(s) ==> NoDebt(Burned(s, user, amount))
  {
    hide Sum, Get, Set, Move;
    SumPaid(s.book, s.cfg.self, user, amount, s.cfg.self);
    SumCredit(s.book, Yes, user, -amount);
    SumCredit(s.book, No, user, -amount);
  }

  /** The trader's quote: with the depth guard passed, the output reserve survives; a fee of at
      most the whole amount gives no negative output; and the division-free test of DebtFree is the
      sign of the buyer's new balance. */
  lemma BuyQuoteBounds(s: State, e: Event, donated: int, odd: nat)
    requires Backed(s, donated, odd) && e.call.Buy? && Exec(s, e).Ok?
    ensures s.status == Open && s.book.totalSupply != 0 && e.call.user != s.cfg.self && 1 <= e.call.collateral
    ensures var (rin, rout, eff) := BuyQuote(s, e.call.side, e.call.collateral);
            && 1 <= rin && 1 <= rout && 1 <= rin + eff
            && 2 * CpmmOut(rin, rout, eff) < rout
            && e.call.minSharesOut <= CpmmOut(rin, rout, eff)
            && (FeeBps(s) <= FULL_BPS ==> 0 <= CpmmOut(rin, rout, eff))
            && (DebtFree(s, e) <==>
                  0 <= s.book.Bal(e.call.side, e.call.user) + e.call.collateral + CpmmOut(rin, rout, eff))
            && Exec(s, e).value.1 == e.call.collateral + CpmmOut(rin, rout, eff)
            && Step(s, e) == Bought(s, e.call.user, e.call.side, e.call.collateral, CpmmOut(rin, rout, eff))
  {
    hide CpmmOut, ApplyFee, EffectiveFeeBps;
    hide Sum;
    var (rin, rout, eff) := BuyQuote(s, e.call.side, e.call.collateral);
    GuardedInputPositive(rin, rout, eff);
    OutAtLeast(rin, rout, eff, s.book.Bal(e.call.side, e.call.user) + e.call.collateral);
    if FeeBps(s) <= FULL_BPS {
      ApplyFeeBounds(e.call.collateral, FeeBps(s));
      CpmmOutSign(rin, rout, eff);
    }
  }

  lemma BuyKeeps(s: State, e: Event, donated: int, odd: nat)
    requires Backed(s, donated, odd) && e.call.Buy? && Exec(s, e).Ok?
    ensures Backed(Step(s, e), donated, odd) && Sum(Step(s, e).book.tokens) == Sum(s.book.tokens)
    ensures NoDebt(s) ==> (NoDebt(Step(s, e)) <==> DebtFree(s, e))
  {
    hide Exec, DebtFree, CpmmOut, X.FeeBps;
    BuyQuoteBounds(s, e, donated, odd);
    var (rin, rout, eff) := BuyQuote(s, e.call.side, e.call.collateral);
    var out := CpmmOut(rin, rout, eff);
    BoughtKeeps(s, e.call.user, e.call.side, e.call.collateral, out, donated, odd);
  }

  lemma BoughtBalance(s: State, user: Address, side: Prediction, collateral: int, out: int)
    ensures Bought(s, user, side, collateral, out).book.Bal(side, user) == s.book.Bal(side, user) + collateral + out
    ensures NoDebt(Bought(s, user, side, collateral, out)) ==> 0 <= s.book.Bal(side, user) + collateral + out
  {
    var t := Bought(s, user, side, collateral, out);
    SetOthers(s.book.Shares(side), user, s.book.Bal(side, user) + collateral + out);
    if NoDebt(t) {
      NonNegativeAt(t.book.Shares(side), user);
    }
  }

  lemma BoughtKeeps(s: State, user: Address, side: Prediction, collateral: int, out: int, donated: int, odd: nat)
    requires Backed(s, donated, odd) && s.status == Open
    requires user != s.cfg.self && 1 <= collateral && 1 <= s.book.Reserve(side) - out
    ensures Backed(Bought(s, user, side, collateral, out), donated, odd)
    ensures Sum(Bought(s, user, side, collateral, out).book.tokens) == Sum(s.book.tokens)
    ensures NoDebt(s) ==>
              (NoDebt(Bought(s, user, side, collateral, out)) <==> 0 <= s.book.Bal(side, user) + collateral + out)
  {
    BoughtBalance(s, user, side, collateral, out);
    hide Sum, Get, Set, Move;
    SumPaid(s.book, user, s.cfg.self, collateral, s.cfg.self);
    SumCredit(s.book, side, user, collateral + out);
  }

  /** A sell always pays less than the shares sold add to the reserve. */
  lemma SellQuoteBounds(s: State, e: Event, donated: int, odd: nat)
    requires Backed(s, donated, odd) && e.call.Sell? && Exec(s, e).Ok?
    ensures s.status == Open && s.book.totalSupply != 0 && e.call.user != s.cfg.self
    ensures e.call.shares <= s.book.Bal(e.call.side, e.call.user)
    ensures var (rin, rout, eff) := SellQuote(s, e.call.side, e.call.shares);
            && 1 <= rin && 1 <= rout && 1 <= eff <= e.call.shares
            && 1 <= CpmmSellOut(rin, rout, eff) <= eff
            && 2 * CpmmSellOut(rin, rout, eff) < rout
            && Exec(s, e).value.1 == CpmmSellOut(rin, rout, eff)
            && Step(s, e) == Sold(s, e.call.user, e.call.side, e.call.shares, CpmmSellOut(rin, rout, eff))
  {
    hide CpmmSellOut, ApplyFee, EffectiveFeeBps;
    hide Sum;
    var (rin, rout, eff) := SellQuote(s, e.call.side, e.call.shares);
    ApplyFeeBounds(e.call.shares, FeeBps(s));
    if eff <= 0 {
      SellOutNothing(rin, rout, eff);
    } else {
      SellOutSolves(rin, rout, eff);
    }
  }

  lemma SellKeeps(s: State, e: Event, donated: int, odd: nat)
    requires Backed(s, donated, odd) && e.call.Sell? && Exec(s, e).Ok?
    ensures Backed(Step(s, e), donated, odd) && Sum(Step(s, e).book.tokens) == Sum(s.book.tokens)
    ensures NoDebt(s) ==> NoDebt(Step(s, e))
    ensures s.book.Reserve(e.call.side) <= Step(s, e).book.Reserve(e.call.side)
  {
    hide Exec, CpmmSellOut, X.FeeBps;
    SellQuoteBounds(s, e, donated, odd);
    var (rin, rout, eff) := SellQuote(s, e.call.side, e.call.shares);
    var paid := CpmmSellOut(rin, rout, eff);
    SoldKeeps(s, e.call.user, e.call.side, e.call.shares, paid, donated, odd);
  }

  lemma SoldKeeps(s: State, user: Address, side: Prediction, shares: int, paid: int, donated: int, odd: nat)
    requires Backed(s, donated, odd) && s.status == Open
    requires user != s.cfg.self && 1 <= paid <= shares <= s.book.Bal(side, user)
    requires 1 <= s.book.Reserve(side.Other()) - paid
    ensures Backed(Sold(s, user, side, shares, paid), donated, odd)
    ensures Sum(Sold(s, user, side, shares, paid).book.tokens) == Sum(s.book.tokens)
    ensures NoDebt(s) ==> NoDebt(Sold(s, user, side, shares, paid))
    ensures s.book.Reserve(side) <= Sold(s, user, side, shares, paid).book.Reserve(side)
  {
    hide Sum, Get, Set, Move;
    SumPaid(s.book, s.cfg.self, user, paid, s.cfg.self);
    SumCredit(s.book, side, user, -shares);
  }

  lemma TransferKeeps(s: State, e: Event, donated: int, odd: nat)
    requires Backed(s, donated, odd) && e.call.Transfer? && Exec(s, e).Ok?
    ensures Backed(Step(s, e), donated, odd) && Sum(Step(s, e).book.tokens) == Sum(s.book.tokens)
    ensures NoDebt(s) ==> NoDebt(Step(s, e))
  {
    hide Sum, Get, Set, Move;
    SumMove(s.book.Shares(e.call.side), e.call.from, e.call.to, e.call.amount);
  }

  lemma ClosedKeeps(s: State, status: Status, finalPrice: int, donated: int, odd: nat)
    requires Backed(s, donated, odd) && s.status == Open && status != Open
    ensures Backed(Closed(s, status, finalPrice), donated, odd)
    ensures Sum(Closed(s, status, finalPrice).book.tokens) == Sum(s.book.tokens)
    ensures NoDebt(s) ==> NoDebt(Closed(s, status, finalPrice))
  {
    hide Sum, Get, Set, Move;
    SumCredit(s.book, Yes, s.cfg.treasury, s.book.poolYes);
    SumCredit(s.book, No, s.cfg.treasury, s.book.poolNo);
  }

  lemma RedeemKeeps(s: State, e: Event, donated: int, odd: nat)
    requires Backed(s, donated, odd) && e.call.Redeem? && Exec(s, e).Ok?
    ensures Backed(Step(s, e), donated, odd + OddRedeem(s, e))
    ensures Sum(Step(s, e).book.tokens) == Sum(s.book.tokens)
    ensures NoDebt(s) ==> NoDebt(Step(s, e))
  {
    hide Backed, NoDebt, X.Redeemed, Payout;
    RedeemedKeeps(s, e.call.user, Payout(s, e.call.user), donated, odd);
  }

  lemma RedeemedKeeps(s: State, user: Address, paid: int, donated: int, odd: nat)
    requires Backed(s, donated, odd) && s.status != Open && user != s.cfg.self
    requires paid == Payout(s, user) && 1 <= paid
    ensures Backed(Redeemed(s, user, paid), donated,
                   odd + if s.status == Cancelled && s.book.Total(user) % 2 == 1 then 1 else 0)
    ensures Sum(Redeemed(s, user, paid).book.tokens) == Sum(s.book.tokens)
    ensures NoDebt(s) ==> NoDebt(Redeemed(s, user, paid))
  {
    hide Sum, Get, Set, Move;
    SumPaid(s.book, s.cfg.self, user, paid, s.cfg.self);
    SumWithBal(s.book, Yes, user, 0);
    SumWithBal(s.book, No, user, 0);
  }

  lemma TokenTransferKeeps(s: State, e: Event, donated: int, odd: nat)
    requires Backed(s, donated, odd) && e.call.TokenTransfer? && Exec(s, e).Ok?
    ensures Backed(Step(s, e), donated + Donation(s, e), odd)
    ensures Sum(Step(s, e).book.tokens) == Sum(s.book.tokens)
    ensures NoDebt(s) ==> NoDebt(Step(s, e))
  {
    hide Sum, Get, Set, Move;
    SumPaid(s.book, e.call.from, e.call.to, e.call.amount, s.cfg.self);
  }

  lemma ConfigFixed(s: State, e: Event)
    ensures Step(s, e).cfg == s.cfg
  {
    hide CpmmOut, CpmmSellOut, ApplyFee, EffectiveFeeBps;
  }

  /** Every call keeps the books: both sides conserved, collateral exactly the supply plus what
      was donated, reserves at least one while open, and no collateral created or destroyed. */
  lemma StepKeeps(s: State, e: Event, donated: int, odd: nat)
    requires Backed(s, donated, odd)
    ensures Backed(Step(s, e), donated + Donation(s, e), odd + OddRedeem(s, e))
    ensures Sum(Step(s, e).book.tokens) == Sum(s.book.tokens)
    ensures Step(s, e).cfg == s.cfg
    ensures NoDebt(s) ==> (NoDebt(Step(s, e)) <==> DebtFree(s, e))
  {
    hide Sum, Backed, NoDebt, ExecBuy, ExecSell, ExecRedeem, X.Transfer, X.TokenTransfer;
    ConfigFixed(s, e);
    if Exec(s, e).Ok? {
      match e.call
      case Split(user, amount) => MintedKeeps(s, user, amount, donated, odd);
      case Merge(user, amount) => BurnedKeeps(s, user, amount, donated, odd);
      case Buy(_, _, _, _) => BuyKeeps(s, e, donated, odd);
      case Sell(_, _, _, _) => SellKeeps(s, e, donated, odd);
      case Transfer(_, _, _, _) => TransferKeeps(s, e, donated, odd);
      case Settle(_, _, _) => ClosedKeeps(s, Step(s, e).status, Step(s, e).finalPrice, donated, odd);
      case Cancel => ClosedKeeps(s, Cancelled, s.finalPrice, donated, odd);
      case Redeem(_) => RedeemKeeps(s, e, donated, odd);
      case TokenTransfer(_, _, _) => TokenTransferKeeps(s, e, donated, odd);
    }
  }

  // ----- whole runs

  lemma {:induction false} RunKeepsFrom(s: State, es: seq<Event>, donated: int, odd: nat)
    requires Backed(s, donated, odd)
    ensures Backed(Run(s, es), donated + Donations(s, es), odd + OddRedeems(s, es))
    ensures Sum(Run(s, es).book.tokens) == Sum(s.book.tokens)
    ensures Run(s, es).cfg == s.cfg
    ensures NoDebt(s) && DebtFreeRun(s, es) ==> NoDebt(Run(s, es))
  {
    hide Backed, NoDebt, DebtFree, Step, Donation, OddRedeem;
    if es != [] {
      var before := es[..|es| - 1];
      RunKeepsFrom(s, before, donated, odd);
      StepKeeps(Run(s, before), es[|es| - 1], donated + Donations(s, before), odd + OddRedeems(s, before));
    }
  }

  lemma RunKeeps(s: State, es: seq<Event>, donated: int)
    requires Backed(s, donated, 0)
    ensures Backed(Run(s, es), donated + Donations(s, es), OddRedeems(s, es))
    ensures Sum(Run(s, es).book.tokens) == Sum(s.book.tokens)
    ensures Run(s, es).cfg == s.cfg
    ensures NoDebt(s) && DebtFreeRun(s, es) ==> NoDebt(Run(s, es))
  {
    hide Backed, NoDebt, Run;
    RunKeepsFrom(s, es, donated, 0);
  }

  /** No call overdraws a collateral balance. */
  lemma TokensStay(s: State, e: Event)
    requires NonNegative(s.book.tokens)
    ensures NonNegative(Step(s, e).book.tokens)
  {
    hide NonNegative, CpmmOut, CpmmSellOut, ApplyFee, EffectiveFeeBps, SettlementCents, Get, Set, Move, Payout;
    if Exec(s, e).Ok? {
      match e.call
      case Split(user, amount) => SumMove(s.book.tokens, user, s.cfg.self, amount);
      case Merge(user, amount) => SumMove(s.book.tokens, s.cfg.self, user, amount);
      case Buy(user, _, collateral, _) => SumMove(s.book.tokens, user, s.cfg.self, collateral);
      case Sell(user, _, _, _) => SumMove(s.book.tokens, s.cfg.self, user, Exec(s, e).value.1);
      case Redeem(user) => SumMove(s.book.tokens, s.cfg.self, user, Exec(s, e).value.1);
      case TokenTransfer(from, to, amount) => SumMove(s.book.tokens, from, to, amount);
      case _ =>
    }
  }

  lemma {:induction false} TokensStayOverRun(s: State, es: seq<Event>)
    requires NonNegative(s.book.tokens)
    ensures NonNegative(Run(s, es).book.tokens)
  {
    hide NonNegative, Step;
    if es != [] {
      TokensStayOverRun(s, es[..|es| - 1]);
      TokensStay(Run(s, es[..|es| - 1]), es[|es| - 1]);
    }
  }

  lemma InitializeTokens(cfg: Config, now: nat, tokens: Balances)
    requires Initialize(cfg, now, tokens).Ok? && NonNegative(tokens)
    ensures NonNegative(Initialize(cfg, now, tokens).value.book.tokens)
  {
    hide NonNegative, Get, Set, Move;
    SumMove(tokens, cfg.admin, cfg.self, cfg.initialLiquidity);
  }

  lemma InitializeBacked(cfg: Config, now: nat, tokens: Balances)
    requires Initialize(cfg, now, tokens).Ok?
    ensures var s := Initialize(cfg, now, tokens).value;
            && Backed(s, Get(tokens, cfg.self), 0) && NoDebt(s)
            && Sum(s.book.tokens) == Sum(tokens) && s.cfg == cfg && s.status == Open
  {
    hide Sum, Get, Set, Move, NonNegative;
    NothingHeld();
    var none: Balances := map[];
    SumPaid(Book(0, 0, 0, none, none, tokens), cfg.admin, cfg.self, cfg.initialLiquidity, cfg.self);
  }

  lemma NothingHeld()
    ensures Sum(map[]) == 0 && NonNegative(map[])
  {
  }

  /** Conservation in every reachable state, with no assumption on trades, clock or callers; and
      no debt as long as no buy was priced into it. */
  lemma EveryStateIsBacked(cfg: Config, now: nat, tokens: Balances, es: seq<Event>)
    requires Initialize(cfg, now, tokens).Ok?
    ensures var s0 := Initialize(cfg, now, tokens).value;
            && Backed(Run(s0, es), Get(tokens, cfg.self) + Donations(s0, es), OddRedeems(s0, es))
            && Sum(Run(s0, es).book.tokens) == Sum(tokens)
            && (DebtFreeRun(s0, es) ==> NoDebt(Run(s0, es)))
  {
    hide Initialize, Backed, NoDebt, Run, DebtFreeRun, Donations, OddRedeems, Sum;
    InitializeBacked(cfg, now, tokens);
    RunKeeps(Initialize(cfg, now, tokens).value, es, Get(tokens, cfg.self));
  }

  /** A run is free of debt in every one of its states exactly when each of its buys is, by its
      own quote. */
  lemma {:induction false} NeverInDebtIff(s: State, es: seq<Event>, donated: int)
    requires Backed(s, donated, 0) && NoDebt(s)
    ensures NeverInDebt(s, es) <==> DebtFreeRun(s, es)
  {
    hide Backed, NoDebt, DebtFree, Step, Donations, OddRedeems;
    if es != [] {
      var before := es[..|es| - 1];
      NeverInDebtIff(s, before, donated);
      RunKeeps(s, before, donated);
      StepKeeps(Run(s, before), es[|es| - 1], donated + Donations(s, before), OddRedeems(s, before));
    }
  }

  /** Two ways a buyer can be sure beforehand: a fee of at most the whole amount, or a floor on
      the output that the holding covers. */
  lemma SafeBuyIsDebtFree(s: State, e: Event, donated: int, odd: nat)
    requires Backed(s, donated, odd) && NoDebt(s) && e.call.Buy? && Exec(s, e).Ok? && s.book.totalSupply != 0
    requires FeeBps(s) <= FULL_BPS ||
             0 <= s.book.Bal(e.call.side, e.call.user) + e.call.collateral + e.call.minSharesOut
    ensures DebtFree(s, e)
  {
    hide Exec, DebtFree, X.FeeBps, CpmmOut, Sum, NonNegative, Get;
    BuyQuoteBounds(s, e, donated, odd);
    NonNegativeAt(s.book.Shares(e.call.side), e.call.user);
  }
}
