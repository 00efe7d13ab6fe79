/** Properties of trades: the pool product and the rounding that erodes it, the seed's safety
    when fees cover that rounding, buying and selling back, the direction prices move in, and
    the calls that undo each other. */
module Trading {
  import opened Arithmetic
  import opened CtfMath
  import opened Ledger
  import opened Market
  import opened Oracle
  import opened Solvency
  import opened Types
  import X = Exchange

  function Product(s: State): int {
    s.book.poolYes * s.book.poolNo
  }

  /** The root whose half is subtracted from a sell's quadratic sum, rounded to the sum's parity:
      twice the distance between the payout and the vertex. */
  function RootDistance(rin: int, rout: int, eff: int): int {
    var q := FloorSqrt(Max(Discriminant(rin, rout, eff), 0));
    q + (rin + eff + rout - q) % 2
  }

  /** Four times what a trade adds to the pool product, from its quote alone: for a buy the fee
      times the new reserve less the division's remainder, for a sell the fee times what is left
      of the opposite reserve and the rounding of the square root. */
  function Surplus4(s: State, e: Event): int {
    if Exec(s, e).Err? then
      0
    else
      match e.call
      case Buy(_, side, collateral, _) =>
        var (rin, rout, eff) := BuyQuote(s, side, collateral);
        4 * ((collateral - eff) * (rin * rout / (rin + eff)) - rin * rout % (rin + eff))
      case Sell(_, side, shares, _) =>
        var (rin, rout, eff) := SellQuote(s, side, shares);
        var t := RootDistance(rin, rout, eff);
        Square(t) - Discriminant(rin, rout, eff) + 2 * ((shares - eff) * (rout - rin - eff + t))
      case _ => 0
  }

  function TotalSurplus4(s: State, es: seq<Event>): int {
    if es == [] then 0
    else TotalSurplus4(s, es[..|es| - 1]) + Surplus4(Run(s, es[..|es| - 1]), es[|es| - 1])
  }

  /** The fee withheld by a trade makes up for what its integer division gives away. A sell whose
      quadratic sum and root differ in parity is rounded down, so it covers whatever its fee. */
  ghost predicate Covers(s: State, e: Event) {
    Exec(s, e).Ok? ==>
      match e.call
      case Buy(_, side, collateral, _) =>
        var (rin, rout, eff) := BuyQuote(s, side, collateral);
        rin * rout % (rin + eff) <= (collateral - eff) * (rin * rout / (rin + eff))
      case Sell(_, side, shares, _) =>
        var (rin, rout, eff) := SellQuote(s, side, shares);
        var d := Max(Discriminant(rin, rout, eff), 0);
        var q := FloorSqrt(d);
        (rin + eff + rout - q) % 2 == 1 || d - Square(q) <= 2 * ((shares - eff) * (rout - rin - eff + q))
      case _ => true
  }

  ghost predicate CoveringRun(s: State, es: seq<Event>) {
    es == [] || (CoveringRun(s, es[..|es| - 1]) && Covers(Run(s, es[..|es| - 1]), es[|es| - 1]))
  }

  // ----- the pool product

  /** The product moves by exactly the surplus of the call while the market stays open. */
  lemma StepProduct(s: State, e: Event, donated: int, odd: nat)
    requires Backed(s, donated, odd) && Step(s, e).status == Open
    ensures s.status == Open
    ensures 4 * Product(Step(s, e)) == 4 * Product(s) + Surplus4(s, e)
  {
    hide Backed, Exec, Step, Product, Surplus4;
    if e.call.Buy? && Exec(s, e).Ok? {
      BuyProduct(s, e, donated, odd);
      TradesWhileOpen(s, e);
    } else if e.call.Sell? && Exec(s, e).Ok? {
      SellProduct(s, e, donated, odd);
      TradesWhileOpen(s, e);
    } else {
      OnlyTradesMovePools(s, e);
      NoSurplus(s, e);
      SameProduct(s, Step(s, e));
    }
  }

  lemma NoSurplus(s: State, e: Event)
    requires !((e.call.Buy? || e.call.Sell?) && Exec(s, e).Ok?)
    ensures Surplus4(s, e) == 0
  {
    hide Exec;
  }

  lemma SameProduct(s: State, t: State)
    requires s.book.poolYes == t.book.poolYes && s.book.poolNo == t.book.poolNo
    ensures Product(s) == Product(t)
  {
  }

  lemma BuyProduct(s: State, e: Event, donated: int, odd: nat)
    requires Backed(s, donated, odd) && e.call.Buy? && Exec(s, e).Ok?
    ensures 4 * Product(Step(s, e)) == 4 * Product(s) + Surplus4(s, e)
    ensures Covers(s, e) <==> 0 <= Surplus4(s, e)
  {
    hide Backed, Exec, Step, Bought, Product, CpmmOut, ApplyFee, X.FeeBps, Sum, DebtFree;
    BuyQuoteBounds(s, e, donated, odd);
    var (rin, rout, eff) := BuyQuote(s, e.call.side, e.call.collateral);
    CpmmOutProduct(rin, rout, eff, e.call.collateral - eff);
    CpmmOutQuotient(rin, rout, eff);
    BoughtProduct(s, e.call.user, e.call.side, e.call.collateral, CpmmOut(rin, rout, eff));
  }

  lemma CpmmOutQuotient(rin: int, rout: int, eff: int)
    requires 1 <= rin && 1 <= rout && 1 <= rin + eff
    ensures rout - CpmmOut(rin, rout, eff) == rin * rout / (rin + eff)
  {
    MulNonNeg(rin, rout);
  }

  lemma SellProduct(s: State, e: Event, donated: int, odd: nat)
    requires Backed(s, donated, odd) && e.call.Sell? && Exec(s, e).Ok?
    ensures 4 * Product(Step(s, e)) == 4 * Product(s) + Surplus4(s, e)
    ensures Covers(s, e) <==> 0 <= Surplus4(s, e)
  {
    hide Backed, Exec, Step, Sold, Product, CpmmSellOut, Discriminant, FloorSqrt, Square, ApplyFee, X.FeeBps, Sum;
    hide RootDistance;
    SellQuoteBounds(s, e, donated, odd);
    var (rin, rout, eff) := SellQuote(s, e.call.side, e.call.shares);
    SellSurplus(rin, rout, eff, e.call.shares - eff);
    SellCovers(rin, rout, eff, e.call.shares - eff);
    SoldProduct(s, e.call.user, e.call.side, e.call.shares, CpmmSellOut(rin, rout, eff));
  }

  lemma SellSurplus(rin: int, rout: int, eff: int, fee: int)
    requires 1 <= rin && 1 <= rout && 0 <= eff
    ensures var x, t := CpmmSellOut(rin, rout, eff), RootDistance(rin, rout, eff);
            4 * ((rin + eff + fee - x) * (rout - x)) ==
            4 * (rin * rout) + Square(t) - Discriminant(rin, rout, eff) + 2 * (fee * (rout - rin - eff + t))
  {
    hide Discriminant, FloorSqrt, Square, CpmmSellOut, RootDistance;
    var x, t := CpmmSellOut(rin, rout, eff), RootDistance(rin, rout, eff);
    PayoutFromRoot(rin, rout, eff);
    SellIdentity(rin, rout, eff, x);
    Distribute(rin + eff - x, fee, rout - x);
    DoubleInside(fee, rout - x);
    assert 2 * (rout - x) == rout - rin - eff + t;
  }

  lemma PayoutFromRoot(rin: int, rout: int, eff: int)
    requires 1 <= rin && 1 <= rout && 0 <= eff
    ensures RootDistance(rin, rout, eff) == rin + eff + rout - 2 * CpmmSellOut(rin, rout, eff)
    ensures 0 < Discriminant(rin, rout, eff)
  {
    hide Discriminant, FloorSqrt, CpmmSellOut;
    SellOutRange(rin, rout, eff);
  }

  /** The parity alternative of Covers is exact for a payout below the opposite reserve. */
  lemma SellCovers(rin: int, rout: int, eff: int, fee: int)
    requires 1 <= rin && 1 <= rout && 0 <= eff && 0 <= fee
    requires 2 * CpmmSellOut(rin, rout, eff) < rout
    ensures var d, t := Max(Discriminant(rin, rout, eff), 0), RootDistance(rin, rout, eff);
            var q := FloorSqrt(d);
            (rin + eff + rout - q) % 2 == 1 || d - Square(q) <= 2 * (fee * (rout - rin - eff + q))
            <==> 0 <= Square(t) - Discriminant(rin, rout, eff) + 2 * (fee * (rout - rin - eff + t))
  {
    hide Discriminant, FloorSqrt, Square, CpmmSellOut;
    PayoutFromRoot(rin, rout, eff);
    var d := Discriminant(rin, rout, eff);
    var q := FloorSqrt(d);
    FloorSqrtSquares(d);
    if (rin + eff + rout - q) % 2 == 1 {
      MulNonNeg(fee, rout - rin - eff + q + 1);
    }
  }

  /** A trade lowers the product exactly when its fee does not cover its rounding. */
  lemma TradeProduct(s: State, e: Event, donated: int, odd: nat)
    requires Backed(s, donated, odd) && (e.call.Buy? || e.call.Sell?) && Exec(s, e).Ok?
    ensures 4 * Product(Step(s, e)) == 4 * Product(s) + Surplus4(s, e)
    ensures Product(s) <= Product(Step(s, e)) <==> Covers(s, e)
  {
    hide Backed, Exec, Step, Product, Surplus4, Covers;
    if e.call.Buy? {
      BuyProduct(s, e, donated, odd);
    } else {
      SellProduct(s, e, donated, odd);
    }
  }

  lemma BoughtProduct(s: State, user: Address, side: Prediction, collateral: int, out: int)
    ensures Product(s) == s.book.Reserve(side.Other()) * s.book.Reserve(side)
    ensures Product(Bought(s, user, side, collateral, out)) ==
            (s.book.Reserve(side.Other()) + collateral) * (s.book.Reserve(side) - out)
  {
    hide Get, Set, Move;
  }

  lemma SoldProduct(s: State, user: Address, side: Prediction, shares: int, paid: int)
    ensures Product(s) == s.book.Reserve(side) * s.book.Reserve(side.Other())
    ensures Product(Sold(s, user, side, shares, paid)) ==
            (s.book.Reserve(side) + shares - paid) * (s.book.Reserve(side.Other()) - paid)
  {
    hide Get, Set, Move;
  }

  /** What a sell can cost the product at most, in quarter units of the root it solves for. */
  lemma SellProductLoss(s: State, e: Event, donated: int, odd: nat)
    requires Backed(s, donated, odd) && e.call.Sell? && Exec(s, e).Ok?
    ensures s.book.totalSupply != 0
    ensures var (rin, rout, eff) := SellQuote(s, e.call.side, e.call.shares);
            0 <= Discriminant(rin, rout, eff) &&
            4 * (Product(s) - Product(Step(s, e))) <= 2 * FloorSqrt(Discriminant(rin, rout, eff))
  {
    hide Backed, Exec, Step, Sold, Product, CpmmSellOut, Discriminant, FloorSqrt, NearestRoot, ApplyFee, X.FeeBps, Sum;
    SellQuoteBounds(s, e, donated, odd);
    var (rin, rout, eff) := SellQuote(s, e.call.side, e.call.shares);
    var paid := CpmmSellOut(rin, rout, eff);
    SellOutSolves(rin, rout, eff);
    Distribute(rin + eff - paid, e.call.shares - eff, rout - paid);
    MulNonNeg(e.call.shares - eff, rout - paid);
    SoldProduct(s, e.call.user, e.call.side, e.call.shares, paid);
  }

  /** A condition that a trader can check beforehand: a fee large enough against the reserves
      covers any rounding. */
  lemma LargeFeeCovers(s: State, e: Event, donated: int, odd: nat)
    requires Backed(s, donated, odd) && (e.call.Buy? || e.call.Sell?)
    requires s.book.totalSupply != 0 && FeeBps(s) <= FULL_BPS
    requires e.call.Buy? ==> var (rin, rout, eff) := BuyQuote(s, e.call.side, e.call.collateral);
                             2 * (rin + eff) <= (e.call.collateral - eff) * rout
    requires e.call.Sell? ==> var (rin, rout, eff) := SellQuote(s, e.call.side, e.call.shares);
                              rin + eff + rout <= (e.call.shares - eff) * rout
    ensures Covers(s, e)
  {
    hide Backed, Exec, CpmmOut, CpmmSellOut, ApplyFee, X.FeeBps, Sum, Bought, Sold;
    hide Discriminant, FloorSqrt, Square, RootDistance, DebtFree;
    if Exec(s, e).Ok? {
      if e.call.Buy? {
        BuyQuoteBounds(s, e, donated, odd);
        var (rin, rout, eff) := BuyQuote(s, e.call.side, e.call.collateral);
        ApplyFeeBounds(e.call.collateral, FeeBps(s));
        LargeFeeCoversSwap(rin, rout, eff, e.call.collateral - eff);
        CpmmOutProduct(rin, rout, eff, e.call.collateral - eff);
        CpmmOutQuotient(rin, rout, eff);
      } else {
        SellQuoteBounds(s, e, donated, odd);
        var (rin, rout, eff) := SellQuote(s, e.call.side, e.call.shares);
        LargeFeeCoversSell(rin, rout, eff, e.call.shares - eff);
        SellCovers(rin, rout, eff, e.call.shares - eff);
        SellSurplus(rin, rout, eff, e.call.shares - eff);
        Distribute(rin + eff - CpmmSellOut(rin, rout, eff), e.call.shares - eff, rout - CpmmSellOut(rin, rout, eff));
      }
    }
  }

  // ----- the seed is safe when fees cover rounding

  /** The supply has not fallen below the seed, and neither has the pool product below the
      seed's own. */
  ghost predicate Seeded(s: State) {
    NoDebt(s) && (s.status == Open ==> Square(s.cfg.initialLiquidity) <= Product(s))
  }

  /** A product of at least the square of the seed bounds the supply, and with it the fee. */
  lemma SeededBounds(s: State, donated: int, odd: nat)
    requires Backed(s, donated, odd) && Seeded(s) && s.status == Open
    ensures s.cfg.initialLiquidity <= s.book.totalSupply
    ensures s.cfg.minFeeBps <= FeeBps(s) <= s.cfg.baseFeeBps
    ensures 2 * s.cfg.initialLiquidity <= s.book.poolYes + s.book.poolNo
  {
    SumNonNegative(s.book.yes);
    SumNonNegative(s.book.no);
    hide Sum, NonNegative, EffectiveFeeBps;
    MeanBound(s.book.poolYes, s.book.poolNo, s.cfg.initialLiquidity);
    FeeInBand(s.cfg.baseFeeBps, s.cfg.minFeeBps, s.cfg.initialLiquidity, s.book.totalSupply);
  }

  /** Arithmetic mean against geometric mean, and the larger factor against the mean. */
  lemma MeanBound(x: int, y: int, m: int)
    requires 1 <= x && 1 <= y && 0 <= m && Square(m) <= x * y
    ensures 2 * m <= x + y
  {
    assert (x + y) * (x + y) == (x - y) * (x - y) + 4 * (x * y);
    SquareNonNeg(x - y);
    assert (2 * m) * (2 * m) == 4 * Square(m);
    SquareReflects(2 * m, x + y);
  }

  /** A seeded state's buys are priced without debt. */
  lemma SeededIsDebtFree(s: State, e: Event, donated: int, odd: nat)
    requires Backed(s, donated, odd) && Seeded(s)
    ensures NoDebt(Step(s, e))
  {
    hide Backed, NoDebt, Exec, Step, Product, FeeBps, DebtFree;
    if e.call.Buy? && Exec(s, e).Ok? {
      TradesWhileOpen(s, e);
      BuyQuoteBounds(s, e, donated, odd);
      SeededBounds(s, donated, odd);
      ValidConfigOf(s, donated, odd);
      SafeBuyIsDebtFree(s, e, donated, odd);
    } else {
      OnlyBuysOwe(s, e);
    }
    StepKeeps(s, e, donated, odd);
  }

  lemma ValidConfigOf(s: State, donated: int, odd: nat)
    requires Backed(s, donated, odd)
    ensures ValidConfig(s.cfg)
  {
  }

  lemma OnlyBuysOwe(s: State, e: Event)
    requires !(e.call.Buy? && Exec(s, e).Ok?)
    ensures DebtFree(s, e)
  {
  }

  lemma TradesWhileOpen(s: State, e: Event)
    requires (e.call.Buy? || e.call.Sell?) && Exec(s, e).Ok?
    ensures s.status == Open && Step(s, e).status == Open
  {
    hide CpmmOut, CpmmSellOut, ApplyFee, EffectiveFeeBps;
  }

  lemma OnlyTradesMovePools(s: State, e: Event)
    requires !((e.call.Buy? || e.call.Sell?) && Exec(s, e).Ok?)
    ensures Step(s, e).status == Open ==>
              s.status == Open && Step(s, e).book.poolYes == s.book.poolYes && Step(s, e).book.poolNo == s.book.poolNo
  {
    hide ExecBuy, ExecSell;
  }

  /** The running total of surpluses never falls below zero while the market is open. */
  ghost predicate NeverBehind(s: State, es: seq<Event>) {
    (Run(s, es).status == Open ==> 0 <= TotalSurplus4(s, es)) && (es == [] || NeverBehind(s, es[..|es| - 1]))
  }

  /** The pool product never falls below its starting value while the market is open. */
  ghost predicate ProductKept(s: State, es: seq<Event>) {
    (Run(s, es).status == Open ==> Product(s) <= Product(Run(s, es))) && (es == [] || ProductKept(s, es[..|es| - 1]))
  }

  /** The product is the starting product plus all surpluses so far. */
  lemma {:induction false} ProductLedger(s: State, es: seq<Event>, donated: int)
    requires Backed(s, donated, 0) && Run(s, es).status == Open
    ensures 4 * Product(Run(s, es)) == 4 * Product(s) + TotalSurplus4(s, es)
  {
    hide Backed, Step, Product, Surplus4;
    if es != [] {
      var before := es[..|es| - 1];
      RunKeeps(s, before, donated);
      StepProduct(Run(s, before), es[|es| - 1], donated + Donations(s, before), OddRedeems(s, before));
      ProductLedger(s, before, donated);
    }
  }

  lemma {:induction false} NeverBehindIff(s: State, es: seq<Event>, donated: int)
    requires Backed(s, donated, 0)
    ensures NeverBehind(s, es) <==> ProductKept(s, es)
  {
    hide Backed, Run, Product, TotalSurplus4;
    if es != [] {
      NeverBehindIff(s, es[..|es| - 1], donated);
    }
    if Run(s, es).status == Open {
      ProductLedger(s, es, donated);
    }
  }

  /** A run whose product is kept is seeded throughout, so it never owes anything either. */
  lemma {:induction false} KeptIsSeeded(s: State, es: seq<Event>, donated: int)
    requires Backed(s, donated, 0) && NoDebt(s)
    requires Square(s.cfg.initialLiquidity) <= Product(s) && ProductKept(s, es)
    ensures Seeded(Run(s, es))
  {
    hide Backed, NoDebt, Run, Step, Product, Square, DebtFreeRun, Donations, OddRedeems;
    RunKeeps(s, es, donated);
    if es == [] {
      RunNothing(s);
    } else {
      var before := es[..|es| - 1];
      RunSnoc(s, before, es[|es| - 1]);
      assert es == before + [es[|es| - 1]];
      KeptIsSeeded(s, before, donated);
      RunKeeps(s, before, donated);
      SeededIsDebtFree(Run(s, before), es[|es| - 1], donated + Donations(s, before), OddRedeems(s, before));
    }
  }

  lemma InitializeProduct(cfg: Config, now: nat, tokens: Balances)
    requires Initialize(cfg, now, tokens).Ok?
    ensures Product(Initialize(cfg, now, tokens).value) == Square(cfg.initialLiquidity)
  {
    hide Get, Set, Move;
  }

  /** From initialization, in every open state: the product is the square of the seed plus a
      quarter of all surpluses; and it never falls below that square exactly as long as the
      running surplus is never negative. Earlier fees may pay for later rounding. */
  lemma ProductIsSeedPlusSurplus(cfg: Config, now: nat, tokens: Balances, es: seq<Event>)
    requires Initialize(cfg, now, tokens).Ok?
    ensures var s0 := Initialize(cfg, now, tokens).value;
            && (Run(s0, es).status == Open ==>
                  4 * Product(Run(s0, es)) == 4 * Square(cfg.initialLiquidity) + TotalSurplus4(s0, es))
            && (NeverBehind(s0, es) <==> ProductKept(s0, es))
            && Product(s0) == Square(cfg.initialLiquidity)
  {
    hide Initialize, Backed, NoDebt, Run, Product, Square, TotalSurplus4, NeverBehind, ProductKept;
    var s0 := Initialize(cfg, now, tokens).value;
    InitializeBacked(cfg, now, tokens);
    InitializeProduct(cfg, now, tokens);
    NeverBehindIff(s0, es, Get(tokens, cfg.self));
    if Run(s0, es).status == Open {
      ProductLedger(s0, es, Get(tokens, cfg.self));
    }
  }

  lemma NeverBehindIsSeeded(cfg: Config, now: nat, tokens: Balances, es: seq<Event>)
    requires Initialize(cfg, now, tokens).Ok?
    requires NeverBehind(Initialize(cfg, now, tokens).value, es)
    ensures Seeded(Run(Initialize(cfg, now, tokens).value, es))
  {
    hide Initialize, Backed, NoDebt, Seeded, Run, Product, Square, NeverBehind, ProductKept;
    InitializeBacked(cfg, now, tokens);
    ProductIsSeedPlusSurplus(cfg, now, tokens, es);
    KeptIsSeeded(Initialize(cfg, now, tokens).value, es, Get(tokens, cfg.self));
  }

  /** In every run whose surplus never falls behind, while the market is open: the product never
      falls below the square of the seed, the supply never below the seed, and the fee never
      leaves its configured band; and nobody is ever in debt. */
  lemma SeedIsKept(cfg: Config, now: nat, tokens: Balances, es: seq<Event>)
    requires Initialize(cfg, now, tokens).Ok?
    requires NeverBehind(Initialize(cfg, now, tokens).value, es)
    ensures var s := Run(Initialize(cfg, now, tokens).value, es);
            && NoDebt(s)
            && (s.status == Open ==>
                  && Square(cfg.initialLiquidity) <= Product(s)
                  && cfg.initialLiquidity <= s.book.totalSupply
                  && cfg.minFeeBps <= FeeBps(s) <= cfg.baseFeeBps)
  {
    hide Initialize, Backed, NoDebt, Run, NeverBehind, Product, Square, FeeBps;
    var s0 := Initialize(cfg, now, tokens).value;
    InitializeBacked(cfg, now, tokens);
    NeverBehindIsSeeded(cfg, now, tokens, es);
    RunKeeps(s0, es, Get(tokens, cfg.self));
    if Run(s0, es).status == Open {
      SeededBounds(Run(s0, es), Get(tokens, cfg.self) + Donations(s0, es), OddRedeems(s0, es));
    }
  }

  /** In particular in every run each of whose trades covers its own rounding. */
  lemma {:induction false} CoveringIsNeverBehind(s: State, es: seq<Event>, donated: int)
    requires Backed(s, donated, 0) && CoveringRun(s, es)
    ensures NeverBehind(s, es) && 0 <= TotalSurplus4(s, es)
  {
    hide Backed, Run, Covers, Surplus4;
    if es != [] {
      var before, e := es[..|es| - 1], es[|es| - 1];
      CoveringIsNeverBehind(s, before, donated);
      RunKeeps(s, before, donated);
      CoversIsSurplus(Run(s, before), e, donated + Donations(s, before), OddRedeems(s, before));
    }
  }

  lemma CoveringRunKeepsSeed(cfg: Config, now: nat, tokens: Balances, es: seq<Event>)
    requires Initialize(cfg, now, tokens).Ok? && CoveringRun(Initialize(cfg, now, tokens).value, es)
    requires Run(Initialize(cfg, now, tokens).value, es).status == Open
    ensures var s := Run(Initialize(cfg, now, tokens).value, es);
            && Square(cfg.initialLiquidity) <= Product(s)
            && cfg.initialLiquidity <= s.book.totalSupply
            && cfg.minFeeBps <= FeeBps(s) <= cfg.baseFeeBps
  {
    hide Initialize, Backed, NoDebt, Run, NeverBehind, CoveringRun, Product, Square, FeeBps, TotalSurplus4;
    InitializeBacked(cfg, now, tokens);
    CoveringIsNeverBehind(Initialize(cfg, now, tokens).value, es, Get(tokens, cfg.self));
    SeedIsKept(cfg, now, tokens, es);
  }

  lemma CoversIsSurplus(s: State, e: Event, donated: int, odd: nat)
    requires Backed(s, donated, odd)
    ensures Covers(s, e) <==> 0 <= Surplus4(s, e)
  {
    hide Backed, Exec, Step, Product;
    if e.call.Buy? && Exec(s, e).Ok? {
      BuyProduct(s, e, donated, odd);
    } else if e.call.Sell? && Exec(s, e).Ok? {
      SellProduct(s, e, donated, odd);
    }
  }

  /** A merge or sell that takes the supply no lower than the seed, read off the call and its
      quote alone: it asks for at most the margin over the seed, or its root is large enough. */
  ghost predicate KeepsSeed(s: State, e: Event) {
    Exec(s, e).Ok? ==>
      var margin := s.book.totalSupply - s.cfg.initialLiquidity;
      match e.call
      case Merge(_, amount) => amount <= margin
      case Sell(_, side, shares, _) =>
        var (rin, rout, eff) := SellQuote(s, side, shares);
        var t := rin + eff + rout - 2 * margin - 1;
        t <= 0 || Square(t) <= Discriminant(rin, rout, eff)
      case _ => true
  }

  /** ... while the market is open. */
  ghost predicate KeepsSeedRun(s: State, es: seq<Event>) {
    es == [] ||
    (KeepsSeedRun(s, es[..|es| - 1]) &&
     var before := Run(s, es[..|es| - 1]);
     (before.status == Open ==> KeepsSeed(before, es[|es| - 1])))
  }

  /** The supply never falls below the seed while the market is open. */
  ghost predicate SupplyKept(s: State, es: seq<Event>) {
    && (Run(s, es).status == Open ==> s.cfg.initialLiquidity <= Run(s, es).book.totalSupply)
    && (es == [] || SupplyKept(s, es[..|es| - 1]))
  }

  /** The condition is exact for every call. */
  lemma KeepsSeedIff(s: State, e: Event, donated: int, odd: nat)
    requires Backed(s, donated, odd) && s.status == Open && s.cfg.initialLiquidity <= s.book.totalSupply
    ensures s.cfg.initialLiquidity <= Step(s, e).book.totalSupply <==> KeepsSeed(s, e)
  {
    hide Backed, Exec, Step, Square, Discriminant;
    if e.call.Sell? && Exec(s, e).Ok? {
      SellKeepsSeedIff(s, e, donated, odd);
    } else if e.call.Buy? && Exec(s, e).Ok? {
      BuyRaisesSupply(s, e, donated, odd);
    } else {
      OnlyMergeLowersSupply(s, e);
    }
  }

  lemma SellKeepsSeedIff(s: State, e: Event, donated: int, odd: nat)
    requires Backed(s, donated, odd) && e.call.Sell? && Exec(s, e).Ok?
    ensures s.cfg.initialLiquidity <= Step(s, e).book.totalSupply <==> KeepsSeed(s, e)
  {
    hide Backed, Exec, Step, Sold, Square, Discriminant, CpmmSellOut, ApplyFee, X.FeeBps, Sum;
    SellQuoteBounds(s, e, donated, odd);
    var (rin, rout, eff) := SellQuote(s, e.call.side, e.call.shares);
    SellOutBoundIff(rin, rout, eff, s.book.totalSupply - s.cfg.initialLiquidity);
    SoldSupply(s, e.call.user, e.call.side, e.call.shares, CpmmSellOut(rin, rout, eff));
  }

  lemma SoldSupply(s: State, user: Address, side: Prediction, shares: int, paid: int)
    ensures Sold(s, user, side, shares, paid).book.totalSupply == s.book.totalSupply - paid
  {
    hide Get, Set, Move;
  }

  lemma BuyRaisesSupply(s: State, e: Event, donated: int, odd: nat)
    requires Backed(s, donated, odd) && e.call.Buy? && Exec(s, e).Ok?
    ensures s.book.totalSupply < Step(s, e).book.totalSupply
  {
    hide Backed, Exec, Step, CpmmOut, ApplyFee, X.FeeBps, Sum, DebtFree, Get, Set, Move;
    BuyQuoteBounds(s, e, donated, odd);
  }

  lemma OnlyMergeLowersSupply(s: State, e: Event)
    requires s.status == Open && !((e.call.Buy? || e.call.Sell?) && Exec(s, e).Ok?)
    ensures e.call.Merge? && Exec(s, e).Ok? ==> Step(s, e).book.totalSupply == s.book.totalSupply - e.call.amount
    ensures !(e.call.Merge? && Exec(s, e).Ok?) ==> s.book.totalSupply <= Step(s, e).book.totalSupply
  {
    hide ExecBuy, ExecSell, Get, Set, Move, SettlementCents;
  }

  /** ... and so for every run: the supply never falls below the seed while the market is open
      exactly when no merge and no sell is made that its own quote forbids. */
  lemma {:induction false} SupplyKeptIff(s: State, es: seq<Event>, donated: int)
    requires Backed(s, donated, 0) && s.status == Open && s.cfg.initialLiquidity <= s.book.totalSupply
    ensures SupplyKept(s, es) <==> KeepsSeedRun(s, es)
  {
    hide Backed, Run, KeepsSeed, Step, Donations, OddRedeems;
    if es == [] {
      RunNothing(s);
    } else {
      var before, e := es[..|es| - 1], es[|es| - 1];
      SupplyKeptIff(s, before, donated);
      RunKeeps(s, before, donated);
      assert es == before + [e];
      RunSnoc(s, before, e);
      if SupplyKept(s, before) && Run(s, before).status == Open {
        KeepsSeedIff(Run(s, before), e, donated + Donations(s, before), OddRedeems(s, before));
        if Step(Run(s, before), e).status != Open {
          ClosingKeepsSupply(Run(s, before), e);
        }
      } else if Run(s, before).status != Open {
        StaysClosed(Run(s, before), e);
      }
    }
  }

  lemma ClosingKeepsSupply(s: State, e: Event)
    requires s.status == Open && Step(s, e).status != Open
    ensures Step(s, e).book.totalSupply == s.book.totalSupply
  {
    hide X.Buy, X.Sell, X.Split, X.Merge, X.Transfer, X.TokenTransfer, X.Redeem, SettlementCents, Get, Set;
  }

  lemma StaysClosed(s: State, e: Event)
    requires s.status != Open
    ensures Step(s, e).status != Open
  {
    hide X.Buy, X.Sell, X.Split, X.Merge, X.Transfer, X.TokenTransfer, X.Redeem, X.Closed, SettlementCents, Payout;
  }

  /** The comment on the fee curve in exact form, from initialization. */
  lemma SeedPromiseIff(cfg: Config, now: nat, tokens: Balances, es: seq<Event>)
    requires Initialize(cfg, now, tokens).Ok?
    ensures var s0 := Initialize(cfg, now, tokens).value;
            && (SupplyKept(s0, es) <==> KeepsSeedRun(s0, es))
            && (KeepsSeedRun(s0, es) && Run(s0, es).status == Open ==>
                  && cfg.initialLiquidity <= Run(s0, es).book.totalSupply != 0
                  && cfg.minFeeBps <= FeeBps(Run(s0, es)) <= cfg.baseFeeBps)
  {
    hide Backed, KeepsSeedRun, Initialize, NoDebt, EffectiveFeeBps, Run;
    var s0 := Initialize(cfg, now, tokens).value;
    InitializeBacked(cfg, now, tokens);
    InitializeSupply(cfg, now, tokens);
    SupplyKeptIff(s0, es, Get(tokens, cfg.self));
    RunKeeps(s0, es, Get(tokens, cfg.self));
    ValidConfigOf(s0, Get(tokens, cfg.self), 0);
    if KeepsSeedRun(s0, es) && Run(s0, es).status == Open {
      FeeInBand(cfg.baseFeeBps, cfg.minFeeBps, cfg.initialLiquidity, Run(s0, es).book.totalSupply);
    }
  }

  lemma InitializeSupply(cfg: Config, now: nat, tokens: Balances)
    requires Initialize(cfg, now, tokens).Ok?
    ensures Initialize(cfg, now, tokens).value.book.totalSupply == cfg.initialLiquidity
  {
    hide Get, Set, Move;
  }

  /** Once everybody has unwound, in any reachable open state, the supply tells whether the pool
      gained or lost: the square of the supply is the square of the seed plus a quarter of all
      surpluses, so nothing of the seed is gone exactly when these total at least zero. */
  lemma UnwoundSupply(cfg: Config, now: nat, tokens: Balances, es: seq<Event>)
    requires Initialize(cfg, now, tokens).Ok?
    requires var s := Run(Initialize(cfg, now, tokens).value, es);
             s.status == Open && Sum(s.book.yes) == 0 && Sum(s.book.no) == 0
    ensures var s0 := Initialize(cfg, now, tokens).value;
            var supply := Run(s0, es).book.totalSupply;
            && 4 * Square(supply) == 4 * Square(cfg.initialLiquidity) + TotalSurplus4(s0, es)
            && (cfg.initialLiquidity <= supply <==> 0 <= TotalSurplus4(s0, es))
  {
    hide Initialize, Backed, NoDebt, Run, TotalSurplus4, NeverBehind, ProductKept, Sum, Donations, OddRedeems;
    var s0 := Initialize(cfg, now, tokens).value;
    EveryStateIsBacked(cfg, now, tokens, es);
    InitializeBacked(cfg, now, tokens);
    InitializePositive(cfg, now, tokens);
    ProductIsSeedPlusSurplus(cfg, now, tokens, es);
    UnwoundPools(Run(s0, es), Get(tokens, cfg.self) + Donations(s0, es), OddRedeems(s0, es));
    SquaresCompare(cfg.initialLiquidity, Run(s0, es).book.totalSupply);
  }

  lemma InitializePositive(cfg: Config, now: nat, tokens: Balances)
    requires Initialize(cfg, now, tokens).Ok?
    ensures 1 <= cfg.initialLiquidity
  {
  }

  lemma UnwoundPools(s: State, donated: int, odd: nat)
    requires Backed(s, donated, odd) && s.status == Open && Sum(s.book.yes) == 0 && Sum(s.book.no) == 0
    ensures Product(s) == Square(s.book.totalSupply) && 1 <= s.book.totalSupply
  {
    hide Sum;
  }

  lemma SquaresCompare(x: int, y: int)
    requires 0 <= x && 0 <= y
    ensures x <= y <==> Square(x) <= Square(y)
  {
    if x <= y {
      SquareMono(x, y);
    } else {
      SquareMono(y + 1, x);
      assert Square(y + 1) == Square(y) + 2 * y + 1;
    }
  }

  // ----- buying and selling back

  /** Buying and at once selling everything bought never returns more than two units over what
      was paid, and nothing over it if the buy covered its rounding. */
  lemma BuyThenSell(s: State, buy: Event, sell: Event, donated: int, odd: nat)
    requires Backed(s, donated, odd) && buy.call.Buy? && Exec(s, buy).Ok?
    requires sell.call.Sell? && sell.call.user == buy.call.user && sell.call.side == buy.call.side
    requires sell.call.shares == Exec(s, buy).value.1
    requires Exec(Step(s, buy), sell).Ok?
    requires FeeBps(s) <= FULL_BPS && Step(s, buy).book.totalSupply != 0 && FeeBps(Step(s, buy)) <= FULL_BPS
    ensures Exec(Step(s, buy), sell).value.1 <= buy.call.collateral + 2
    ensures Covers(s, buy) ==> Exec(Step(s, buy), sell).value.1 <= buy.call.collateral
  {
    hide Backed, Exec, Step, Product, X.FeeBps, Covers;
    var t := Step(s, buy);
    TradeProduct(s, buy, donated, odd);
    BuyKeeps(s, buy, donated, odd);
    QuoteRoundTrip(s, t, buy, sell, donated, odd);
  }

  lemma QuoteRoundTrip(s: State, t: State, buy: Event, sell: Event, donated: int, odd: nat)
    requires Backed(s, donated, odd) && buy.call.Buy? && Exec(s, buy).Ok? && t == Step(s, buy)
    requires Backed(t, donated, odd) && sell.call.Sell? && sell.call.side == buy.call.side
    requires sell.call.shares == Exec(s, buy).value.1
    requires Exec(t, sell).Ok?
    requires FeeBps(s) <= FULL_BPS && t.book.totalSupply != 0 && FeeBps(t) <= FULL_BPS
    ensures Exec(t, sell).value.1 <= buy.call.collateral + 2
    ensures Product(s) <= Product(t) ==> Exec(t, sell).value.1 <= buy.call.collateral
  {
    hide Backed, Exec, Step, Bought, Sold, Product, CpmmOut, CpmmSellOut, ApplyFee, X.FeeBps, Sum, DebtFree;
    var side, c := buy.call.side, buy.call.collateral;
    BuyQuoteBounds(s, buy, donated, odd);
    SellQuoteBounds(t, sell, donated, odd);
    var (a, b, eff) := BuyQuote(s, side, c);
    var out := CpmmOut(a, b, eff);
    BoughtProduct(s, buy.call.user, side, c, out);
    BoughtReserves(s, buy.call.user, side, c, out);
    ApplyFeeBounds(c, FeeBps(s));
    ApplyFeeBounds(c + out, FeeBps(t));
    RoundTrip(a, b, c, c - eff, c + out - ApplyFee(c + out, FeeBps(t)));
  }

  lemma BoughtReserves(s: State, user: Address, side: Prediction, collateral: int, out: int)
    ensures var t := Bought(s, user, side, collateral, out).book;
            && t.Reserve(side) == s.book.Reserve(side) - out
            && t.Reserve(side.Other()) == s.book.Reserve(side.Other()) + collateral
  {
    hide Get, Set, Move;
  }

  lemma SoldReserves(s: State, user: Address, side: Prediction, shares: int, paid: int)
    ensures var t := Sold(s, user, side, shares, paid).book;
            && t.Reserve(side) == s.book.Reserve(side) + shares - paid
            && t.Reserve(side.Other()) == s.book.Reserve(side.Other()) - paid
  {
    hide Get, Set, Move;
  }

  // ----- prices

  /** While open both quoted probabilities lie between 0 and 10000 basis points and sum to it. */
  lemma PricesSum(s: State, donated: int, odd: nat)
    requires Backed(s, donated, odd) && s.status == Open
    ensures PriceBps(s).Ok?
    ensures var (yes, no) := PriceBps(s).value;
            && 0 <= yes <= FULL_BPS && 0 <= no <= FULL_BPS && yes + no == FULL_BPS
            && yes == s.book.poolNo * FULL_BPS / (s.book.poolYes + s.book.poolNo)
  {
    hide Sum;
    var n, d := s.book.poolNo * FULL_BPS, s.book.poolYes + s.book.poolNo;
    DivBounds(n, d);
    if n / d > FULL_BPS {
      MulMono(FULL_BPS + 1, n / d, d);
    }
  }

  /** If the odds x to y are no longer than x' to y', so are the shares of the whole. */
  lemma ShareGrows(x: int, y: int, x': int, y': int)
    requires 1 <= x && 1 <= y && 1 <= x' && 1 <= y' && x * y' <= x' * y
    ensures x * FULL_BPS / (x + y) <= x' * FULL_BPS / (x' + y')
  {
    var q, d, d' := x * FULL_BPS / (x + y), x + y, x' + y';
    DivBounds(x * FULL_BPS, d);
    DivBounds(x' * FULL_BPS, d');
    var q' := x' * FULL_BPS / d';
    if q' < q {
      CrossShares(x, y, x', y', q);
      MulMono(q' + 1, q, d');
    }
  }

  /** If `q` of 10000 parts of x + y fit in x, they fit in x' of x' + y' as well. */
  lemma CrossShares(x: int, y: int, x': int, y': int, q: int)
    requires 1 <= x && 1 <= y && 1 <= x' && 1 <= y' && x * y' <= x' * y && 0 <= q
    requires q * (x + y) <= x * FULL_BPS
    ensures q * (x' + y') <= x' * FULL_BPS
  {
    var f := FULL_BPS - q;
    assert q * y <= f * x;
    ScaledOdds(x, y, x', y', q, f);
    MulCancel(x, q * y', f * x');
    assert q * (x' + y') == q * x' + q * y';
  }

  lemma ScaledOdds(x: int, y: int, x': int, y': int, q: int, f: int)
    requires 0 <= x' && 0 <= q && x * y' <= x' * y && q * y <= f * x
    ensures x * (q * y') <= x * (f * x')
  {
    MulMono(x * y', x' * y, q);
    MulMono(q * y, f * x, x');
    assert q * (x * y') == x * (q * y');
    assert q * (x' * y) == x' * (q * y);
    assert x' * (f * x) == x * (f * x');
  }

  lemma MulCancel(x: int, a: int, b: int)
    requires 1 <= x && x * a <= x * b
    ensures a <= b
  {
    assert x * (b + 1) == x * b + x;
    if a > b {
      MulMono(b + 1, a, x);
    }
  }

  function SideBps(s: State, side: Prediction): int
    requires PriceBps(s).Ok?
  {
    if side.Yes? then PriceBps(s).value.0 else PriceBps(s).value.1
  }

  /** A buy that does not shorten the odds of the side bought, read off its quote alone. It can
      only fail when the fee exceeds the whole amount. */
  ghost predicate OddsKept(s: State, e: Event) {
    e.call.Buy? && Exec(s, e).Ok? ==>
      var (rin, rout, eff) := BuyQuote(s, e.call.side, e.call.collateral);
      rin != 0 && -(rin + eff) * (e.call.collateral * rout / rin + 1) < rout * eff
  }

  /** ... is exact: the odds of a side are the other reserve to its own. */
  lemma BuyMovesOdds(s: State, e: Event, donated: int, odd: nat)
    requires Backed(s, donated, odd) && e.call.Buy? && Exec(s, e).Ok?
    ensures var side, t := e.call.side, Step(s, e);
            OddsKept(s, e) <==>
              s.book.Reserve(side.Other()) * t.book.Reserve(side) <= t.book.Reserve(side.Other()) * s.book.Reserve(side)
    ensures s.book.totalSupply != 0
    ensures FeeBps(s) <= FULL_BPS || 0 <= e.call.minSharesOut ==> OddsKept(s, e)
  {
    hide Backed, Exec, Step, Bought, CpmmOut, ApplyFee, X.FeeBps, Sum, DebtFree;
    BuyQuoteBounds(s, e, donated, odd);
    var (rin, rout, eff) := BuyQuote(s, e.call.side, e.call.collateral);
    var c, out := e.call.collateral, CpmmOut(rin, rout, eff);
    OutAtLeast(rin, rout, eff, c * rout / rin);
    BoughtReserves(s, e.call.user, e.call.side, c, out);
    MulNonNeg(c, rout);
    FloorBound(c * rout, rin, out);
    assert rin * (rout - out) == rin * rout - rin * out;
    assert (rin + c) * rout == rin * rout + c * rout;
  }

  lemma FloorBound(a: int, b: int, out: int)
    requires 0 <= a && 1 <= b
    ensures -(a / b) <= out <==> -a <= b * out
    ensures 0 <= a / b
  {
    DivBounds(a, b);
    var q := a / b;
    assert b * -q == -(q * b) && b * (-q - 1) == -((q + 1) * b);
    if -q <= out {
      MulMono(-q, out, b);
    } else {
      MulMono(out, -q - 1, b);
    }
  }

  /** A buy that does not lower the quoted price of its side, read off its quote and the price in
      force. Yes quotes are rounded down and No quotes up, hence the two cases; `widest` is the
      largest total of both reserves at which the new other reserve is still quoted as high. */
  ghost predicate PriceKept(s: State, e: Event) {
    e.call.Buy? && Exec(s, e).Ok? && PriceBps(s).Ok? ==>
      var (rin, rout, eff) := BuyQuote(s, e.call.side, e.call.collateral);
      var other, least := rin + e.call.collateral, SideBps(s, e.call.side) - if e.call.side.Yes? then 0 else 1;
      least <= 0 ||
      var widest := (other * FULL_BPS - if e.call.side.Yes? then 0 else 1) / least;
      -(rin + eff) * (widest - other - rout + 1) < rout * eff
  }

  /** When a side is quoted at least so high: Yes rounds down, No rounds up. */
  lemma QuoteAtLeast(s: State, side: Prediction, bps: int, donated: int, odd: nat)
    requires Backed(s, donated, odd) && s.status == Open
    ensures PriceBps(s).Ok? && 0 <= SideBps(s, side)
    ensures var other, total := s.book.Reserve(side.Other()), s.book.poolYes + s.book.poolNo;
            var k := if side.Yes? then 0 else 1;
            bps <= SideBps(s, side) <==> (bps - k) * total <= other * FULL_BPS - k
  {
    hide Backed, PriceBps;
    PricesSum(s, donated, odd);
    PoolsPositive(s, donated, odd);
    var yes, no := s.book.poolYes, s.book.poolNo;
    if side.Yes? {
      AtLeastQuotient(no * FULL_BPS, yes + no, bps);
    } else {
      AtLeastQuotient(no * FULL_BPS, yes + no, FULL_BPS - bps + 1);
      assert (FULL_BPS - bps + 1) * (yes + no) == FULL_BPS * (yes + no) - (bps - 1) * (yes + no);
    }
  }

  lemma AtLeastQuotient(a: int, b: int, q: int)
    requires 1 <= b
    ensures q <= a / b <==> q * b <= a
  {
    DivBounds(a, b);
    if q <= a / b {
      MulMono(q, a / b, b);
    } else {
      MulMono(a / b + 1, q, b);
    }
  }

  lemma BuyKeepsPriceIff(s: State, e: Event, donated: int, odd: nat)
    requires Backed(s, donated, odd) && e.call.Buy? && Exec(s, e).Ok?
    ensures PriceBps(s).Ok? && PriceBps(Step(s, e)).Ok?
    ensures SideBps(s, e.call.side) <= SideBps(Step(s, e), e.call.side) <==> PriceKept(s, e)
  {
    hide Backed, Exec, Step, Bought, CpmmOut, ApplyFee, X.FeeBps, Sum, DebtFree, PriceBps, SideBps;
    var side, t := e.call.side, Step(s, e);
    BuyQuoteBounds(s, e, donated, odd);
    BuyKeeps(s, e, donated, odd);
    TradesWhileOpen(s, e);
    var (rin, rout, eff) := BuyQuote(s, side, e.call.collateral);
    var out := CpmmOut(rin, rout, eff);
    BoughtReserves(s, e.call.user, side, e.call.collateral, out);
    QuoteAtLeast(s, side, 0, donated, odd);
    QuoteAtLeast(t, side, SideBps(s, side), donated, odd);
    var k := if side.Yes? then 0 else 1;
    var other, least := rin + e.call.collateral, SideBps(s, side) - k;
    TotalAtMost(rin, rout, eff, other, least, other * FULL_BPS - k);
  }

  /** A bound on the new total of the reserves as a bound on the swap's output. */
  lemma TotalAtMost(rin: int, rout: int, eff: int, other: int, least: int, a: int)
    requires 1 <= rin && 1 <= rout && 1 <= rin + eff && 1 <= other && 0 <= a
    requires 1 <= rout - CpmmOut(rin, rout, eff)
    ensures least * (other + rout - CpmmOut(rin, rout, eff)) <= a <==>
              least <= 0 || -(rin + eff) * (a / least - other - rout + 1) < rout * eff
  {
    hide CpmmOut;
    var total := other + rout - CpmmOut(rin, rout, eff);
    if least <= 0 {
      MulMono(least, 0, total);
    } else {
      AtLeastQuotient(a, least, total);
      OutAtLeast(rin, rout, eff, a / least - other - rout);
    }
  }

  /** Buying a side keeps its quote at least as high exactly when the buy's own quote says so, as
      it does whenever it keeps the odds; selling a side never raises its quote; and no other call
      that leaves the market open moves the quotes at all. */
  lemma TradesMovePrice(s: State, e: Event, donated: int, odd: nat)
    requires Backed(s, donated, odd) && Exec(s, e).Ok? && s.status == Open && Step(s, e).status == Open
    ensures PriceBps(s).Ok? && PriceBps(Step(s, e)).Ok?
    ensures e.call.Buy? ==> (SideBps(s, e.call.side) <= SideBps(Step(s, e), e.call.side) <==> PriceKept(s, e))
    ensures e.call.Buy? && OddsKept(s, e) ==> PriceKept(s, e)
    ensures e.call.Sell? ==> SideBps(Step(s, e), e.call.side) <= SideBps(s, e.call.side)
    ensures !e.call.Buy? && !e.call.Sell? ==> PriceBps(Step(s, e)) == PriceBps(s)
  {
    hide Backed, Exec, Step, PriceBps, SideBps, OddsKept, PriceKept, Donation, OddRedeem;
    var t := Step(s, e);
    StepKeeps(s, e, donated, odd);
    PricesSum(s, donated, odd);
    PricesSum(t, donated + Donation(s, e), odd + OddRedeem(s, e));
    PoolsPositive(s, donated, odd);
    PoolsPositive(t, donated + Donation(s, e), odd + OddRedeem(s, e));
    if e.call.Buy? {
      BuyMovesOdds(s, e, donated, odd);
      BuyKeepsPriceIff(s, e, donated, odd);
      if OddsKept(s, e) {
        QuoteFollowsOdds(s, t, e.call.side);
      }
    } else if e.call.Sell? {
      SellMovesOdds(s, e, donated, odd);
      QuoteFollowsOdds(t, s, e.call.side);
    } else {
      OnlyTradesMovePools(s, e);
      QuoteOfPools(s, t);
    }
  }

  lemma QuoteOfPools(s: State, t: State)
    requires s.status == t.status && s.book.poolYes == t.book.poolYes && s.book.poolNo == t.book.poolNo
    ensures PriceBps(s) == PriceBps(t)
  {
    hide TruncDiv;
  }

  lemma SellMovesOdds(s: State, e: Event, donated: int, odd: nat)
    requires Backed(s, donated, odd) && e.call.Sell? && Exec(s, e).Ok?
    ensures var side, t := e.call.side, Step(s, e);
            t.book.Reserve(side.Other()) * s.book.Reserve(side) <= s.book.Reserve(side.Other()) * t.book.Reserve(side)
  {
    hide Backed, Exec, Step, Sold, CpmmSellOut, ApplyFee, X.FeeBps, Sum;
    SellQuoteBounds(s, e, donated, odd);
    var (rin, rout, eff) := SellQuote(s, e.call.side, e.call.shares);
    var paid := CpmmSellOut(rin, rout, eff);
    SoldReserves(s, e.call.user, e.call.side, e.call.shares, paid);
    MulMono(rout - paid, rout, rin);
    MulMono(rin, rin + e.call.shares - paid, rout);
  }

  lemma QuoteFollowsOdds(s: State, t: State, side: Prediction)
    requires s.status == Open && t.status == Open
    requires 1 <= s.book.poolYes && 1 <= s.book.poolNo && 1 <= t.book.poolYes && 1 <= t.book.poolNo
    requires s.book.Reserve(side.Other()) * t.book.Reserve(side) <= t.book.Reserve(side.Other()) * s.book.Reserve(side)
    requires PriceBps(s).Ok? && PriceBps(t).Ok?
    requires PriceBps(s).value.0 == s.book.poolNo * FULL_BPS / (s.book.poolYes + s.book.poolNo)
    requires PriceBps(t).value.0 == t.book.poolNo * FULL_BPS / (t.book.poolYes + t.book.poolNo)
    requires PriceBps(s).value.0 + PriceBps(s).value.1 == FULL_BPS
    requires PriceBps(t).value.0 + PriceBps(t).value.1 == FULL_BPS
    ensures SideBps(s, side) <= SideBps(t, side)
  {
    hide PriceBps;
    if side.Yes? {
      ShareGrows(s.book.poolNo, s.book.poolYes, t.book.poolNo, t.book.poolYes);
    } else {
      ShareGrows(t.book.poolNo, t.book.poolYes, s.book.poolNo, s.book.poolYes);
    }
  }

  lemma PoolsPositive(s: State, donated: int, odd: nat)
    requires Backed(s, donated, odd) && s.status == Open
    ensures 1 <= s.book.poolYes && 1 <= s.book.poolNo
  {
    hide Sum;
  }

  // ----- calls that succeed whenever their visible guards pass

  /** While open and free of debt the supply is positive, so the fee is always defined. */
  lemma SupplyPositive(s: State, donated: int, odd: nat)
    requires Backed(s, donated, odd) && NoDebt(s) && s.status == Open
    ensures s.book.poolYes <= s.book.totalSupply && s.book.poolNo <= s.book.totalSupply
    ensures 1 <= s.book.totalSupply
  {
    SumNonNegative(s.book.yes);
    SumNonNegative(s.book.no);
  }

  /** A buy is refused for nothing but its own guards and a zero divisor, which a fee of at most
      the whole amount rules out; the internal debit always succeeds. */
  lemma BuySucceedsIff(s: State, e: Event, donated: int, odd: nat)
    requires Backed(s, donated, odd) && NoDebt(s) && s.status == Open
    requires e.call.Buy? && e.call.user != s.cfg.self && e.now < s.cfg.expiry && 1 <= e.call.collateral
    ensures s.book.totalSupply != 0
    ensures var (rin, rout, eff) := BuyQuote(s, e.call.side, e.call.collateral);
            && (FeeBps(s) <= FULL_BPS ==> rin + eff != 0)
            && (Exec(s, e).Ok? <==> rin + eff != 0 &&
                                    var out := CpmmOut(rin, rout, eff);
                                    && 2 * out < rout && e.call.minSharesOut <= out
                                    && s.book.CanPay(e.call.user, e.call.collateral))
  {
    hide Sum, CpmmOut, ApplyFee, EffectiveFeeBps;
    SupplyPositive(s, donated, odd);
    ApplyFeeBounds(e.call.collateral, FeeBps(s));
    assert 0 <= Get(s.book.Shares(e.call.side.Other()), e.call.user);
  }

  /** A sell of held shares is refused for nothing but its own guards; in particular the
      contract can always pay. */
  lemma SellSucceedsIff(s: State, e: Event, donated: int, odd: nat)
    requires Backed(s, donated, odd) && NoDebt(s) && s.status == Open && 0 <= donated
    requires e.call.Sell? && e.call.user != s.cfg.self && e.now < s.cfg.expiry
    requires 1 <= e.call.shares <= s.book.Bal(e.call.side, e.call.user)
    ensures s.book.totalSupply != 0
    ensures var (rin, rout, eff) := SellQuote(s, e.call.side, e.call.shares);
            (Exec(s, e).Ok? <==> var paid := CpmmSellOut(rin, rout, eff);
                                 2 * paid < rout && 1 <= paid && e.call.minCollateralOut <= paid)
  {
    hide Sum, CpmmSellOut, ApplyFee, EffectiveFeeBps;
    SupplyPositive(s, donated, odd);
  }

  // ----- calls that undo each other

  /** Merging what was just split restores the whole state, collateral included. */
  lemma MergeUndoesSplit(s: State, now: nat, later: nat, user: Address, amount: int, donated: int, odd: nat)
    requires Backed(s, donated, odd) && NoDebt(s) && 0 <= donated
    requires Exec(s, Event(now, Split(user, amount))).Ok?
    ensures var t := Step(s, Event(now, Split(user, amount)));
            Exec(t, Event(later, Merge(user, amount))) == Ok((s, 0))
  {
    SupplyPositive(s, donated, odd);
    hide Sum, NonNegative;
    var t := Minted(s, user, amount);
    assert Get(s.book.yes, user) >= 0 && Get(s.book.no, user) >= 0 by {
      assert NonNegative(s.book.yes) && NonNegative(s.book.no);
      NonNegativeAt(s.book.yes, user);
      NonNegativeAt(s.book.no, user);
    }
    BurnAfterMint(s, user, amount);
  }

  lemma BurnAfterMint(s: State, user: Address, amount: int)
    requires user != s.cfg.self
    ensures Burned(Minted(s, user, amount), user, amount) == s
  {
    hide Get, Set, Move;
    var b := s.book;
    SetTwice(b.yes, user, Get(b.yes, user) + amount, Get(b.yes, user));
    SetTwice(b.no, user, Get(b.no, user) + amount, Get(b.no, user));
    MoveBack(b.tokens, user, s.cfg.self, amount);
  }

  lemma MoveBack(m: Balances, from: Address, to: Address, amount: int)
    requires from != to
    ensures Move(Move(m, from, to, amount), to, from, amount) == m
  {
    SameBalances(Move(Move(m, from, to, amount), to, from, amount), m);
  }

  /** Sending shares back restores the whole state. */
  lemma TransferBack(s: State, now: nat, later: nat, from: Address, to: Address, side: Prediction, amount: int)
    requires from != to && to != s.cfg.self && NoDebt(s)
    requires Exec(s, Event(now, Transfer(from, to, side, amount))).Ok?
    ensures var t := Step(s, Event(now, Transfer(from, to, side, amount)));
            Exec(t, Event(later, Transfer(to, from, side, amount))) == Ok((s, 0))
  {
    MoveBack(s.book.Shares(side), from, to, amount);
    NonNegativeAt(s.book.Shares(side), to);
  }
}
