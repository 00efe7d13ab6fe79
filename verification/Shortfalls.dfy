/** Runs from initialization in which a promise of the design fails: rounding erodes the seed, the
    fee rises with the supply, a balance becomes negative and starves a claim, and odd holdings
    keep a cancelled market from paying out its supply. */
module Shortfalls {
  import opened Arithmetic
  import opened CtfMath
  import opened Ledger
  import opened Market
  import opened Oracle
  import opened Solvency
  import opened Trading
  import opened Types
  import X = Exchange

  /** A market with the given seed, charging 1000 basis points at that supply. */
  function Demo(self: Address, admin: Address, seed: int): Config {
    Config(self, admin, admin, 1, 1, 1, 1, 1_000, 0, seed, Leg(0, 0, 2, 0), None)
  }

  /** The supply can fall below the seed: from 100/100 a buy of one unit and two sells of one
      share, whose fees all floor to zero, end with a supply of 99. */
  lemma SupplyFallsBelowSeed(self: Address, admin: Address, user: Address)
    requires self != admin && self != user && admin != user
    ensures var tokens: Balances := map[admin := 100, user := 1];
            && Initialize(Demo(self, admin, 100), 0, tokens).Ok?
            && var buy, sell := Event(0, Buy(user, Yes, 1, 0)), Event(0, Sell(user, Yes, 1, 0));
               var s0 := Initialize(Demo(self, admin, 100), 0, tokens).value;
               Run(s0, [] + [buy] + [sell] + [sell]).book.totalSupply == 99
  {
    hide Exec, Step, Run;
    var tokens: Balances := map[admin := 100, user := 1];
    var buy, sell := Event(0, Buy(user, Yes, 1, 0)), Event(0, Sell(user, Yes, 1, 0));
    var s0 := Initialize(Demo(self, admin, 100), 0, tokens).value;
    TinyBuy(s0, admin, user);
    var s1 := Step(s0, buy);
    TinySell(s1, admin, user, 101, 2);
    var s2 := Step(s1, sell);
    TinySell(s2, admin, user, 100, 1);
    assert Run(s0, []) == s0 by {
      RunNothing(s0);
    }
    RunSnoc(s0, [], buy);
    RunSnoc(s0, [] + [buy], sell);
    RunSnoc(s0, [] + [buy] + [sell], sell);
  }

  lemma TinyQuotes(total: int)
    requires 100 <= total <= 101
    ensures ApplyFee(1, EffectiveFeeBps(1_000, 0, 100, total)) == 1
    ensures CpmmOut(100, 100, 1) == 1
    ensures CpmmSellOut(99, total, 1) == 1
  {
    hide EffectiveFeeBps, FloorSqrt, CpmmSellOut;
    FeeInBand(1_000, 0, 100, total);
    assert NearestRoot(99, total, 1, 1);
    SellOutIff(99, total, 1, 1);
  }

  lemma TinyBuy(s: State, admin: Address, user: Address)
    requires s.cfg == Demo(s.cfg.self, admin, 100) && s.status == Open && s.cfg.self != user
    requires s.book.poolYes == s.book.poolNo == s.book.totalSupply == 100
    requires s.book.yes == map[] && s.book.no == map[]
    requires Get(s.book.tokens, user) == 1 && Get(s.book.tokens, s.cfg.self) == 100
    ensures var t := Step(s, Event(0, Buy(user, Yes, 1, 0)));
            && t.cfg == s.cfg && t.status == Open
            && t.book.poolYes == 99 && t.book.poolNo == 101 && t.book.totalSupply == 101
            && t.book.Bal(Yes, user) == 2 && Get(t.book.tokens, s.cfg.self) == 101
  {
    hide ApplyFee, EffectiveFeeBps, CpmmOut, CpmmSellOut;
    TinyQuotes(100);
  }

  lemma TinySell(s: State, admin: Address, user: Address, total: int, held: int)
    requires s.cfg == Demo(s.cfg.self, admin, 100) && s.status == Open && s.cfg.self != user
    requires 100 <= total <= 101 && 1 <= held
    requires s.book.poolYes == 99 && s.book.poolNo == s.book.totalSupply == total
    requires s.book.Bal(Yes, user) == held && Get(s.book.tokens, s.cfg.self) == total
    ensures var t := Step(s, Event(0, Sell(user, Yes, 1, 0)));
            && t.cfg == s.cfg && t.status == Open
            && t.book.poolYes == 99 && t.book.poolNo == t.book.totalSupply == total - 1
            && t.book.Bal(Yes, user) == held - 1 && Get(t.book.tokens, s.cfg.self) == total - 1
  {
    hide ApplyFee, EffectiveFeeBps, CpmmOut, CpmmSellOut;
    TinyQuotes(total);
  }

  // ----- rounding erodes any seed

  /** One unit bought and two shares sold back, at fees that floor to zero. */
  function Cycle(user: Address): seq<Event> {
    [] + [Event(0, Buy(user, Yes, 1, 0))] + [Event(0, Sell(user, Yes, 1, 0))] + [Event(0, Sell(user, Yes, 1, 0))]
  }

  function Cycles(user: Address, n: nat): seq<Event> {
    if n == 0 then [] else Cycle(user) + Cycles(user, n - 1)
  }

  /** The market after its user split as much as the seed and both pools eroded to `pool`. */
  ghost predicate Eroded(s: State, admin: Address, user: Address, seed: int, pool: int) {
    && s.cfg == Demo(s.cfg.self, admin, seed) && s.status == Open && s.cfg.self != user
    && admin != user && admin != s.cfg.self && s.book.Bal(Yes, admin) == 0
    && s.book.poolYes == pool && s.book.poolNo == pool && s.book.totalSupply == pool + seed
    && s.book.Bal(Yes, user) == seed && s.book.Bal(No, user) == seed
    && Get(s.book.tokens, user) == seed + 10 - pool && Get(s.book.tokens, s.cfg.self) == pool + seed
  }

  lemma SmallQuotes(p: int, seed: int, total: int)
    requires 3 <= p <= seed <= total
    ensures ApplyFee(1, EffectiveFeeBps(1_000, 0, seed, total)) == 1
    ensures CpmmOut(p, p, 1) == 1
    ensures CpmmSellOut(p - 1, p + 1, 1) == 1 && CpmmSellOut(p - 1, p, 1) == 1
  {
    hide EffectiveFeeBps, CpmmSellOut, FloorSqrt;
    FeeInBand(1_000, 0, seed, total);
    assert p * p == (p + 1) * (p - 1) + 1;
    DivIs(p * p, p + 1, p - 1);
    NearestByTwo(p - 1, p + 1);
    NearestByTwo(p - 1, p);
  }

  lemma NearestByTwo(rin: int, rout: int)
    requires 1 <= rin && rin + 1 <= rout <= rin + 2
    ensures CpmmSellOut(rin, rout, 1) == 1
  {
    hide CpmmSellOut, FloorSqrt;
    var t := rin + rout - 1;
    assert Square(t - 1) <= Discriminant(rin, rout, 1) < Square(t + 1) by {
      SquareOfPred(t);
      SellIdentity(rin, rout, 1, 1);
      assert Square(t + 1) == Square(t) + 2 * t + 1;
      assert rin * (rout - 1) - rin * rout == -rin;
    }
    SellOutIff(rin, rout, 1, 1);
  }

  lemma CycleBuy(s: State, admin: Address, user: Address, seed: int, p: int)
    requires 3 <= p <= seed && Eroded(s, admin, user, seed, p)
    ensures var t := Step(s, Event(0, Buy(user, Yes, 1, 0)));
            && t.cfg == s.cfg && t.status == Open
            && t.book.poolYes == p - 1 && t.book.poolNo == p + 1 && t.book.totalSupply == p + seed + 1
            && t.book.Bal(Yes, user) == seed + 2 && t.book.Bal(No, user) == seed && t.book.Bal(Yes, admin) == 0
            && Get(t.book.tokens, user) == seed + 9 - p && Get(t.book.tokens, s.cfg.self) == p + seed + 1
  {
    hide ApplyFee, EffectiveFeeBps, CpmmOut, CpmmSellOut;
    SmallQuotes(p, seed, p + seed);
  }

  lemma CycleSell(s: State, admin: Address, user: Address, seed: int, p: int, no: int, held: int)
    requires 3 <= p <= seed && p <= no <= p + 1 && 1 <= held
    requires s.cfg == Demo(s.cfg.self, admin, seed) && s.status == Open && s.cfg.self != user
    requires s.book.poolYes == p - 1 && s.book.poolNo == no && s.book.totalSupply == no + seed
    requires s.book.Bal(Yes, user) == held && s.book.Bal(No, user) == seed
    requires admin != user && s.book.Bal(Yes, admin) == 0
    requires Get(s.book.tokens, user) == seed + 10 - no && Get(s.book.tokens, s.cfg.self) == no + seed
    ensures var t := Step(s, Event(0, Sell(user, Yes, 1, 0)));
            && t.cfg == s.cfg && t.status == Open
            && t.book.poolYes == p - 1 && t.book.poolNo == no - 1 && t.book.totalSupply == no + seed - 1
            && t.book.Bal(Yes, user) == held - 1 && t.book.Bal(No, user) == seed && t.book.Bal(Yes, admin) == 0
            && Get(t.book.tokens, user) == seed + 11 - no && Get(t.book.tokens, s.cfg.self) == no + seed - 1
  {
    hide ApplyFee, EffectiveFeeBps, CpmmOut, CpmmSellOut;
    SmallQuotes(p, seed, no + seed);
  }

  lemma CycleErodes(s: State, admin: Address, user: Address, seed: int, p: int)
    requires 3 <= p <= seed && Eroded(s, admin, user, seed, p)
    ensures Eroded(Run(s, Cycle(user)), admin, user, seed, p - 1)
  {
    hide Exec, Step, Run;
    var buy, sell := Event(0, Buy(user, Yes, 1, 0)), Event(0, Sell(user, Yes, 1, 0));
    CycleBuy(s, admin, user, seed, p);
    var s1 := Step(s, buy);
    CycleSell(s1, admin, user, seed, p, p + 1, seed + 2);
    var s2 := Step(s1, sell);
    CycleSell(s2, admin, user, seed, p, p, seed + 1);
    RunNothing(s);
    RunSnoc(s, [], buy);
    RunSnoc(s, [] + [buy], sell);
    RunSnoc(s, [] + [buy] + [sell], sell);
  }

  lemma {:induction false} CyclesErode(s: State, admin: Address, user: Address, seed: int, p: int, n: nat)
    requires p <= seed && 2 <= p - n && Eroded(s, admin, user, seed, p)
    ensures Eroded(Run(s, Cycles(user, n)), admin, user, seed, p - n)
    decreases n
  {
    hide Run, Eroded;
    if n == 0 {
      RunNothing(s);
    } else {
      CycleErodes(s, admin, user, seed, p);
      CyclesErode(Run(s, Cycle(user)), admin, user, seed, p - 1, n - 1);
      RunConcat(s, Cycle(user), Cycles(user, n - 1));
    }
  }

  /** The run: split as much as the seed, erode both pools to `left`, merge it all back. */
  function ErodingRun(user: Address, seed: int, left: int): seq<Event>
    requires left <= seed
  {
    [Event(0, Split(user, seed))] + Cycles(user, seed - left) + [Event(0, Merge(user, seed))]
  }

  /** The state that run ends in: nobody but the pool holds a share. */
  ghost predicate Worn(s: State, admin: Address, user: Address, seed: int, left: int) {
    && s.cfg == Demo(s.cfg.self, admin, seed) && s.status == Open && s.cfg.self != user
    && admin != user && admin != s.cfg.self && s.book.Bal(Yes, admin) == 0
    && s.book.poolYes == left && s.book.poolNo == left && s.book.totalSupply == left
    && s.book.Bal(Yes, user) == 0 && s.book.Bal(No, user) == 0
    && Get(s.book.tokens, user) == 2 * seed + 10 - left && Get(s.book.tokens, s.cfg.self) == left
  }

  /** From every seed, trades whose fees floor to zero can bring the supply to any value from two
      up to the seed, with everybody's shares unwound. */
  lemma RoundingErodesSeed(self: Address, admin: Address, user: Address, seed: int, left: int)
    requires self != admin && self != user && admin != user && 2 <= left <= seed
    ensures var tokens: Balances := map[admin := seed, user := seed + 10];
            && Initialize(Demo(self, admin, seed), 0, tokens).Ok?
            && var s := Run(Initialize(Demo(self, admin, seed), 0, tokens).value, ErodingRun(user, seed, left));
               Worn(s, admin, user, seed, left)
  {
    hide Exec, Step, Run, Eroded, Cycles, Worn;
    var tokens: Balances := map[admin := seed, user := seed + 10];
    var split, merge := Event(0, Split(user, seed)), Event(0, Merge(user, seed));
    SplitIsEroded(self, admin, user, seed);
    var s0 := Initialize(Demo(self, admin, seed), 0, tokens).value;
    var s1 := Step(s0, split);
    CyclesErode(s1, admin, user, seed, seed, seed - left);
    MergeAll(Run(s1, Cycles(user, seed - left)), admin, user, seed, left);
    assert Run(s0, [split]) == s1 by {
      RunNothing(s0);
      RunSnoc(s0, [], split);
      assert [] + [split] == [split];
    }
    RunConcat(s0, [split], Cycles(user, seed - left));
    RunSnoc(s0, [split] + Cycles(user, seed - left), merge);
  }

  lemma SplitIsEroded(self: Address, admin: Address, user: Address, seed: int)
    requires self != admin && self != user && admin != user && 1 <= seed
    ensures var tokens: Balances := map[admin := seed, user := seed + 10];
            && Initialize(Demo(self, admin, seed), 0, tokens).Ok?
            && var s0 := Initialize(Demo(self, admin, seed), 0, tokens).value;
               Eroded(Step(s0, Event(0, Split(user, seed))), admin, user, seed, seed)
  {
  }

  lemma MergeAll(s: State, admin: Address, user: Address, seed: int, left: int)
    requires 1 <= seed && 0 <= left && Eroded(s, admin, user, seed, left)
    ensures Worn(Step(s, Event(0, Merge(user, seed))), admin, user, seed, left)
  {
  }

  // ----- the fee can rise with the supply

  /** Eroded to a supply of two under a seed of 8589935, the fee is 2.04 percent, because the curve
      wraps around in the cast to 32 bits; splitting one more unit makes it 286331 times the whole. */
  lemma SplitRaisesFee(self: Address, admin: Address, user: Address, seed: int)
    requires self != admin && self != user && admin != user && seed == 8_589_935
    ensures var tokens: Balances := map[admin := seed, user := seed + 10];
            && Initialize(Demo(self, admin, seed), 0, tokens).Ok?
            && var s := Run(Initialize(Demo(self, admin, seed), 0, tokens).value, ErodingRun(user, seed, 2));
               var e := Event(0, Split(user, 1));
               && s.book.totalSupply == 2 && FeeBps(s) == 204
               && Exec(s, e).Ok? && Step(s, e).book.totalSupply == 3 && FeeBps(Step(s, e)) == 2_863_311_666
  {
    hide Run, EffectiveFeeBps, ErodingRun;
    RoundingErodesSeed(self, admin, user, seed, 2);
    CastRaisesFee();
  }

  // ----- a run into debt

  /** Balances can become negative: eroded to pools of 5 and a supply of 5 under a seed of 100 the
      fee is 20000 basis points; a buyer who accepts a negative output then ends with a balance of
      -1, and the price of the side bought falls from 5000 to 4666. */
  lemma RunIntoDebt(self: Address, admin: Address, user: Address)
    requires self != admin && self != user && admin != user
    ensures var tokens: Balances := map[admin := 100, user := 110];
            && Initialize(Demo(self, admin, 100), 0, tokens).Ok?
            && var s := Run(Initialize(Demo(self, admin, 100), 0, tokens).value, ErodingRun(user, 100, 5));
               var e := Event(0, Buy(user, Yes, 2, -3));
               && PriceBps(s) == Ok((5_000, 5_000)) && s.book.totalSupply == 5 && FeeBps(s) == 20_000
               && Exec(s, e).Ok? && Step(s, e).book.Bal(Yes, user) == -1 && PriceBps(Step(s, e)) == Ok((4_666, 5_334))
               && InDebt(Step(s, e), admin, user)
  {
    hide Exec, Step, Run, PriceBps, FeeBps, EffectiveFeeBps, InDebt, ErodingRun, Worn;
    RoundingErodesSeed(self, admin, user, 100, 5);
    var tokens: Balances := map[admin := 100, user := 110];
    BuyAtFive(Run(Initialize(Demo(self, admin, 100), 0, tokens).value, ErodingRun(user, 100, 5)), admin, user);
  }

  /** The state that run ends in. */
  ghost predicate InDebt(s: State, admin: Address, user: Address) {
    && s.cfg == Demo(s.cfg.self, admin, 100) && admin != s.cfg.self && admin != user && s.status == Open
    && s.book.poolYes == 8 && s.book.poolNo == 7 && s.book.totalSupply == 7
    && s.book.Bal(Yes, admin) == 0 && s.book.Bal(Yes, user) == -1 && Get(s.book.tokens, s.cfg.self) == 7
  }

  /** A debt can starve a claim: when that market settles for Yes, the treasury holds eight winning
      shares against seven units of collateral, and its redemption is refused. Sending the debtor
      one share makes up for the debt: the other seven are then paid. */
  lemma DebtStarves(self: Address, admin: Address, user: Address, now: nat)
    requires self != admin && self != user && admin != user
    ensures var tokens: Balances := map[admin := 100, user := 110];
            && Initialize(Demo(self, admin, 100), 0, tokens).Ok?
            && var es := ErodingRun(user, 100, 5) + [Event(0, Buy(user, Yes, 2, -3))] + [Event(1, OneCentYes())];
               var s := Run(Initialize(Demo(self, admin, 100), 0, tokens).value, es);
               var t := Step(s, Event(now, Transfer(admin, user, Yes, 1)));
               && s.status == ResolvedYes && Payout(s, admin) == 8
               && Exec(s, Event(now, Redeem(admin))) == Err(TokenTrap)
               && Exec(t, Event(now, Redeem(admin))).Ok? && Exec(t, Event(now, Redeem(admin))).value.1 == 7
  {
    hide Exec, Step, Run, InDebt, PriceBps, FeeBps, Payout, ErodingRun;
    var tokens: Balances := map[admin := 100, user := 110];
    RunIntoDebt(self, admin, user);
    var s0, e := Initialize(Demo(self, admin, 100), 0, tokens).value, Event(0, Buy(user, Yes, 2, -3));
    var es := ErodingRun(user, 100, 5);
    RunSnoc(s0, es, e);
    RunSnoc(s0, es + [e], Event(1, OneCentYes()));
    SettleInDebt(Run(s0, es + [e]), admin, user, now);
    DebtMadeGood(Run(s0, es + [e] + [Event(1, OneCentYes())]), admin, user, now);
  }

  /** A settlement at one cent, the demonstration market's strike, with one agreeing oracle. */
  function OneCentYes(): Call {
    Settle(Verified([Feed(1, Some(1), Some(-2), None)], 1_000_000), Reading(Some(PriceData(1, 1)), 2), Reading(None, 0))
  }

  lemma SettleInDebt(s: State, admin: Address, user: Address, now: nat)
    requires InDebt(s, admin, user)
    ensures var t := Step(s, Event(1, OneCentYes()));
            && t.status == ResolvedYes && Payout(t, admin) == 8 && Exec(t, Event(now, Redeem(admin))) == Err(TokenTrap)
            && admin != t.cfg.self && admin != user
            && t.book.Bal(Yes, admin) == 8 && t.book.Bal(Yes, user) == -1 && Get(t.book.tokens, t.cfg.self) == 7
  {
    hide Set;
    OneCent(s.cfg);
    SetOthers(s.book.yes, admin, 8);
  }

  lemma DebtMadeGood(s: State, admin: Address, user: Address, now: nat)
    requires s.status == ResolvedYes && admin != s.cfg.self && admin != user
    requires s.book.Bal(Yes, admin) == 8 && Get(s.book.tokens, s.cfg.self) == 7
    ensures var t := Step(s, Event(now, Transfer(admin, user, Yes, 1)));
            Exec(t, Event(now, Redeem(admin))).Ok? && Exec(t, Event(now, Redeem(admin))).value.1 == 7
  {
    hide Set;
    SetOthers(s.book.yes, admin, 7);
    SetOthers(Set(s.book.yes, admin, 7), user, s.book.Bal(Yes, user) + 1);
  }

  lemma OneCent(cfg: Config)
    requires cfg == Demo(cfg.self, cfg.admin, 100)
    ensures var call := OneCentYes();
            SettlementCents(cfg, 1, call.update, call.reflector, call.redstone) == Ok(1)
  {
    assert FindFeed([Feed(1, Some(1), Some(-2), None)], 1) == Some(Feed(1, Some(1), Some(-2), None));
    assert ToCents(1, -2) == Ok(1) && RoundToCents(1, 2) == 1 && DivergenceBps(1, 1) == 0;
  }

  lemma BuyAtFive(t: State, admin: Address, user: Address)
    requires Worn(t, admin, user, 100, 5)
    ensures var e := Event(0, Buy(user, Yes, 2, -3));
            && PriceBps(t) == Ok((5_000, 5_000)) && t.book.totalSupply == 5 && FeeBps(t) == 20_000
            && Exec(t, e).Ok? && Step(t, e).book.Bal(Yes, user) == -1 && PriceBps(Step(t, e)) == Ok((4_666, 5_334))
            && InDebt(Step(t, e), admin, user)
  {
    hide ApplyFee, EffectiveFeeBps, CpmmOut, PriceBps, Get, Set;
    NegativeQuotes();
    var e := Event(0, Buy(user, Yes, 2, -3));
    assert Exec(t, e) == Ok((Bought(t, user, Yes, 2, -3), -1));
    BoughtBalance(t, user, Yes, 2, -3);
    BoughtReserves(t, user, Yes, 2, -3);
    QuotedPrices(t, Step(t, e));
    SetOthers(t.book.yes, user, -1);
    SetOthers(t.book.tokens, user, 203);
    SetOthers(Set(t.book.tokens, user, 203), t.cfg.self, 7);
  }

  lemma QuotedPrices(s: State, t: State)
    requires s.status == Open && t.status == Open
    requires s.book.poolYes == 5 && s.book.poolNo == 5 && t.book.poolYes == 8 && t.book.poolNo == 7
    ensures PriceBps(s) == Ok((5_000, 5_000)) && PriceBps(t) == Ok((4_666, 5_334))
  {
  }

  lemma NegativeQuotes()
    ensures EffectiveFeeBps(1_000, 0, 100, 5) == 20_000 && ApplyFee(2, 20_000) == -2 && CpmmOut(5, 5, -2) == -3
  {
  }

  // ----- odd holdings

  /** Payouts do not always add up to the supply. From a seed of 100: u splits one unit, sends the
      No share to v, the market is cancelled and everybody tries to redeem; the treasury gets its
      100, and in the state reached, with one unit left, every redemption is refused. Only when v
      sends the share back can u redeem the pair and empty the market. */
  lemma OddSharesStayBehind(self: Address, admin: Address, u: Address, v: Address)
    requires self != admin && self != u && self != v && admin != u && admin != v && u != v
    ensures var tokens: Balances := map[admin := 100, u := 1];
            && Initialize(Demo(self, admin, 100), 0, tokens).Ok?
            && var s := Run(Initialize(Demo(self, admin, 100), 0, tokens).value, OddRun(admin, u, v));
               && s.status == Cancelled && s.book.totalSupply == 1
               && (forall a, now :: Exec(s, Event(now, Redeem(a))).Err?)
               && var t := Step(s, Event(2, Transfer(v, u, No, 1)));
                  && Exec(t, Event(2, Redeem(u))).Ok? && Exec(t, Event(2, Redeem(u))).value.1 == 1
                  && Step(t, Event(2, Redeem(u))).book.totalSupply == 0
  {
    hide Exec, Step, Run, Holdings, Get;
    var tokens: Balances := map[admin := 100, u := 1];
    OddStart(self, admin, u);
    var s0 := Initialize(Demo(self, admin, 100), 0, tokens).value;
    OddSplit(s0, admin, u, v);
    var s1 := Step(s0, Event(0, Split(u, 1)));
    OddTransfer(s1, admin, u, v);
    var s2 := Step(s1, Event(0, Transfer(u, v, No, 1)));
    OddCancel(s2, admin, u, v);
    var s3 := Step(s2, Event(2, Cancel));
    OddTreasury(s3, admin, u, v);
    var s4 := Step(s3, Event(2, Redeem(admin)));
    OddStuck(s4, u, v);
    OddRejoined(s4, admin, u, v);
    RunNothing(s0);
    RunSnoc(s0, [], Event(0, Split(u, 1)));
    RunSnoc(s0, [] + [Event(0, Split(u, 1))], Event(0, Transfer(u, v, No, 1)));
    RunSnoc(s0, OddTrades(u, v), Event(2, Cancel));
    RunSnoc(s0, OddTrades(u, v) + [Event(2, Cancel)], Event(2, Redeem(admin)));
    RunSnoc(s0, OddTrades(u, v) + [Event(2, Cancel)] + [Event(2, Redeem(admin))], Event(2, Redeem(u)));
    RunSnoc(s0, OddTrades(u, v) + [Event(2, Cancel)] + [Event(2, Redeem(admin))] + [Event(2, Redeem(u))],
            Event(2, Redeem(v)));
  }

  function OddTrades(u: Address, v: Address): seq<Event> {
    [] + [Event(0, Split(u, 1))] + [Event(0, Transfer(u, v, No, 1))]
  }

  function OddRun(admin: Address, u: Address, v: Address): seq<Event> {
    OddTrades(u, v) + [Event(2, Cancel)] + [Event(2, Redeem(admin))] + [Event(2, Redeem(u))] + [Event(2, Redeem(v))]
  }

  /** The holdings along that run: the treasury's of each side, u's Yes share, and the No share
      that is u's or v's. */
  ghost predicate Holdings(s: State, admin: Address, u: Address, v: Address, treasury: int, uNo: int) {
    && s.cfg == Demo(s.cfg.self, admin, 100)
    && s.cfg.self != admin && s.cfg.self != u && s.cfg.self != v && admin != u && admin != v && u != v
    && (forall a :: s.book.Bal(Yes, a) == if a == admin then treasury else if a == u then 1 else 0)
    && (forall a :: s.book.Bal(No, a) ==
                    if a == admin then treasury else if a == u then uNo else if a == v then 1 - uNo else 0)
    && Get(s.book.tokens, s.cfg.self) == s.book.totalSupply
  }

  lemma OddStart(self: Address, admin: Address, u: Address)
    requires self != admin && self != u && admin != u
    ensures var tokens: Balances := map[admin := 100, u := 1];
            && Initialize(Demo(self, admin, 100), 0, tokens).Ok?
            && var s := Initialize(Demo(self, admin, 100), 0, tokens).value;
               && s.cfg == Demo(self, admin, 100) && s.status == Open && s.book.yes == map[] && s.book.no == map[]
               && s.book.poolYes == 100 && s.book.poolNo == 100 && s.book.totalSupply == 100
               && Get(s.book.tokens, u) == 1 && Get(s.book.tokens, self) == 100
  {
  }

  lemma OddSplit(s: State, admin: Address, u: Address, v: Address)
    requires s.cfg == Demo(s.cfg.self, admin, 100)
    requires s.cfg.self != admin && s.cfg.self != u && s.cfg.self != v && admin != u && admin != v && u != v
    requires s.status == Open && s.book.yes == map[] && s.book.no == map[]
    requires s.book.poolYes == 100 && s.book.poolNo == 100 && s.book.totalSupply == 100
    requires Get(s.book.tokens, u) == 1 && Get(s.book.tokens, s.cfg.self) == 100
    ensures var t := Step(s, Event(0, Split(u, 1)));
            && Holdings(t, admin, u, v, 0, 1) && t.status == Open
            && t.book.poolYes == 100 && t.book.poolNo == 100 && t.book.totalSupply == 101
  {
    hide Set;
    NobodyHolds();
    SetOthers(s.book.yes, u, 1);
    SetOthers(s.book.no, u, 1);
    SetOthers(s.book.tokens, u, 0);
    SetOthers(Set(s.book.tokens, u, 0), s.cfg.self, 101);
  }

  lemma NobodyHolds()
    ensures forall a :: Get(map[], a) == 0
  {
  }

  lemma OddTransfer(s: State, admin: Address, u: Address, v: Address)
    requires Holdings(s, admin, u, v, 0, 1) && s.status == Open
    requires s.book.poolYes == 100 && s.book.poolNo == 100 && s.book.totalSupply == 101
    ensures var t := Step(s, Event(0, Transfer(u, v, No, 1)));
            && Holdings(t, admin, u, v, 0, 0) && t.status == Open
            && t.book.poolYes == 100 && t.book.poolNo == 100 && t.book.totalSupply == 101
  {
    hide Get, Set;
    assert s.book.Bal(No, u) == 1 && s.book.Bal(No, v) == 0;
    SetOthers(s.book.no, u, 0);
    SetOthers(Set(s.book.no, u, 0), v, 1);
    var t := Step(s, Event(0, Transfer(u, v, No, 1)));
    assert t.book == s.book.(no := Set(Set(s.book.no, u, 0), v, 1));
    forall a
      ensures t.book.Bal(Yes, a) == if a == u then 1 else 0
      ensures t.book.Bal(No, a) == if a == v then 1 else 0
    {
      assert s.book.Bal(Yes, a) == if a == u then 1 else 0;
      assert s.book.Bal(No, a) == if a == u then 1 else 0;
    }
  }

  lemma OddCancel(s: State, admin: Address, u: Address, v: Address)
    requires Holdings(s, admin, u, v, 0, 0) && s.status == Open
    requires s.book.poolYes == 100 && s.book.poolNo == 100 && s.book.totalSupply == 101
    ensures var t := Step(s, Event(2, Cancel));
            Holdings(t, admin, u, v, 100, 0) && t.status == Cancelled && t.book.totalSupply == 101
  {
    hide Get, Set;
    assert s.book.Bal(Yes, admin) == 0 && s.book.Bal(No, admin) == 0;
    SetOthers(s.book.yes, admin, 100);
    SetOthers(s.book.no, admin, 100);
    var t := Step(s, Event(2, Cancel));
    assert t.book.yes == Set(s.book.yes, admin, 100) && t.book.no == Set(s.book.no, admin, 100);
    forall a
      ensures t.book.Bal(Yes, a) == if a == admin then 100 else if a == u then 1 else 0
      ensures t.book.Bal(No, a) == if a == admin then 100 else if a == v then 1 else 0
    {
      assert s.book.Bal(Yes, a) == if a == u then 1 else 0;
      assert s.book.Bal(No, a) == if a == v then 1 else 0;
    }
  }

  lemma OddTreasury(s: State, admin: Address, u: Address, v: Address)
    requires Holdings(s, admin, u, v, 100, 0) && s.status == Cancelled && s.book.totalSupply == 101
    ensures var t := Step(s, Event(2, Redeem(admin)));
            && t.status == Cancelled && t.book.totalSupply == 1 && Holdings(t, admin, u, v, 0, 0)
            && forall a :: t.book.Total(a) <= 1
  {
    hide Get, Set, Move;
    assert s.book.Bal(Yes, admin) == 100 && s.book.Bal(No, admin) == 100;
    SetOthers(s.book.yes, admin, 0);
    SetOthers(s.book.no, admin, 0);
    var t := Step(s, Event(2, Redeem(admin)));
    assert t.book.yes == Set(s.book.yes, admin, 0) && t.book.no == Set(s.book.no, admin, 0);
    SumPaid(s.book, s.cfg.self, admin, 100, s.cfg.self);
    forall a
      ensures t.book.Bal(Yes, a) == if a == u then 1 else 0
      ensures t.book.Bal(No, a) == if a == v then 1 else 0
      ensures t.book.Total(a) <= 1
    {
      assert s.book.Bal(Yes, a) == if a == admin then 100 else if a == u then 1 else 0;
      assert s.book.Bal(No, a) == if a == admin then 100 else if a == v then 1 else 0;
    }
  }

  lemma OddStuck(s: State, u: Address, v: Address)
    requires s.status == Cancelled && forall a :: s.book.Total(a) <= 1
    ensures forall a, now :: Exec(s, Event(now, Redeem(a))).Err?
    ensures Step(s, Event(2, Redeem(u))) == s && Step(s, Event(2, Redeem(v))) == s
  {
  }

  lemma OddRejoined(s: State, admin: Address, u: Address, v: Address)
    requires Holdings(s, admin, u, v, 0, 0) && s.status == Cancelled && s.book.totalSupply == 1
    ensures var t := Step(s, Event(2, Transfer(v, u, No, 1)));
            && Exec(t, Event(2, Redeem(u))).Ok? && Exec(t, Event(2, Redeem(u))).value.1 == 1
            && Step(t, Event(2, Redeem(u))).book.totalSupply == 0
  {
    hide Set;
    assert s.book.Bal(Yes, u) == 1 && s.book.Bal(No, u) == 0 && s.book.Bal(No, v) == 1;
    SetOthers(s.book.no, v, 0);
    SetOthers(Set(s.book.no, v, 0), u, 1);
  }
}
