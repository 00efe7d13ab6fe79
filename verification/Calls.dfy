/** What each call of the market does, told in the fields of the state alone: exactly when it
    succeeds, which error it gives when it does not, what it returns, and how every balance,
    reserve and total moves. Rates, prices and payouts are stated by the inequalities that
    determine them. */
module Calls {
  import opened Arithmetic
  import opened CtfMath
  import opened Ledger
  import opened Market
  import opened Oracle
  import opened Solvency
  import opened Types
  import X = Exchange

  // ----- the shape of an effect

  /** Only the book changed. */
  ghost predicate OnlyBook(s: State, t: State) {
    t.cfg == s.cfg && t.status == s.status && t.finalPrice == s.finalPrice
  }

  /** `amount` collateral went from one address to another, and nobody else's balance moved. */
  ghost predicate Paid(b: Book, c: Book, from: Address, to: Address, amount: int) {
    forall a :: Get(c.tokens, a) ==
                Get(b.tokens, a) - (if a == from then amount else 0) + (if a == to then amount else 0)
  }

  /** One holder's two balances moved by so much, and nobody else's did. */
  ghost predicate Held(b: Book, c: Book, user: Address, yes: int, no: int) {
    && (forall a :: Get(c.yes, a) == Get(b.yes, a) + if a == user then yes else 0)
    && (forall a :: Get(c.no, a) == Get(b.no, a) + if a == user then no else 0)
  }

  ghost predicate Pools(b: Book, c: Book, yes: int, no: int, supply: int) {
    c.poolYes == b.poolYes + yes && c.poolNo == b.poolNo + no && c.totalSupply == b.totalSupply + supply
  }

  lemma MovedAt(m: Balances, from: Address, to: Address, amount: int)
    ensures forall a :: Get(Move(m, from, to, amount), a) ==
                        Get(m, a) - (if a == from then amount else 0) + (if a == to then amount else 0)
  {
    hide Set;
    var debited := Set(m, from, Get(m, from) - amount);
    SetOthers(m, from, Get(m, from) - amount);
    SetOthers(debited, to, Get(debited, to) + amount);
  }

  // ----- the rate in force

  /** The fee curve in basis points, as its last step keeps it: the low 32 bits. */
  ghost function Rate(s: State): nat
    requires s.book.totalSupply != 0
  {
    var supply, locked := s.book.totalSupply, (s.cfg.baseFeeBps - s.cfg.minFeeBps) * s.cfg.initialLiquidity;
    (s.cfg.minFeeBps + if supply > 0 then locked / supply else -(locked / -supply)) % 0x1_0000_0000
  }

  /** What a trade of so much is charged: the floor of its share. */
  ghost function Charge(s: State, amount: int): int
    requires s.book.totalSupply != 0
  {
    amount * Rate(s) / 10_000
  }

  /** What is left of it. */
  ghost function Net(s: State, amount: int): int
    requires s.book.totalSupply != 0
  {
    amount - Charge(s, amount)
  }

  /** The fee that is quoted is the rate in force, and what a trade is left with is its amount less
      the charge at that rate. */
  lemma FeeIsCharged(s: State, amount: int)
    requires ValidConfig(s.cfg) && s.book.totalSupply != 0 && 0 <= amount
    ensures FeeBps(s) == Rate(s)
    ensures ApplyFee(amount, FeeBps(s)) == Net(s, amount)
    ensures var w := Charge(s, amount);
            10_000 * w <= amount * Rate(s) < 10_000 * (w + 1)
  {
    RateIsCurve(s);
    hide Rate, X.FeeBps;
    MulNonNeg(amount, Rate(s));
  }

  lemma RateIsCurve(s: State)
    requires ValidConfig(s.cfg) && s.book.totalSupply != 0
    ensures FeeBps(s) == Rate(s)
  {
    MulNonNeg(s.cfg.baseFeeBps - s.cfg.minFeeBps, s.cfg.initialLiquidity);
  }

  /** The swap's output: the ceiling of the ideal one. */
  ghost predicate Swaps(rin: int, rout: int, eff: int, out: int) {
    && 1 <= rin + eff
    && (rin + eff) * (out - 1) < rout * eff <= (rin + eff) * out
  }

  /** The direct sell's payout: the integer nearest to the smaller root of
      (rin + eff - x) * (rout - x) == rin * rout. */
  ghost predicate Nearest(rin: int, rout: int, eff: int, x: int) {
    var sum, t := rin + eff + rout, rin + eff + rout - 2 * x;
    (t - 1) * (t - 1) <= sum * sum - 4 * (eff * rout) < (t + 1) * (t + 1)
  }

  lemma SwapsIff(rin: int, rout: int, eff: int, out: int)
    requires 1 <= rin && 1 <= rout && 1 <= rin + eff
    ensures Swaps(rin, rout, eff, out) <==> out == CpmmOut(rin, rout, eff)
  {
    hide CpmmOut;
    CpmmOutIsCeiling(rin, rout, eff);
    var n, own := rin + eff, CpmmOut(rin, rout, eff);
    if out < own {
      MulMono(out, own - 1, n);
    } else if own < out {
      MulMono(own, out - 1, n);
    }
  }

  lemma NearestIff(rin: int, rout: int, eff: int, x: int)
    requires 1 <= rin && 1 <= rout && 0 <= eff
    ensures Nearest(rin, rout, eff, x) <==> x == CpmmSellOut(rin, rout, eff)
  {
    hide CpmmSellOut;
    SellOutIff(rin, rout, eff, x);
  }

  // ----- split and merge

  /** Anybody but the contract can split any positive amount they can pay, while the market is open. */
  lemma SplitDoes(s: State, now: nat, user: Address, amount: int)
    ensures var r, b := Exec(s, Event(now, Split(user, amount))), s.book;
            && (r.Ok? <==> user != s.cfg.self && s.status == Open && 1 <= amount <= Get(b.tokens, user))
            && (r.Ok? ==>
                  var (t, v) := r.value;
                  && v == 0 && OnlyBook(s, t) && Paid(b, t.book, user, s.cfg.self, amount)
                  && Held(b, t.book, user, amount, amount) && Pools(b, t.book, 0, 0, amount))
            && (r.Err? ==>
                  r.error == if user == s.cfg.self then AuthTrap
                             else if s.status != Open then MarketNotOpen
                             else if amount < 1 then InvalidAmount
                             else TokenTrap)
  {
    hide Get, X.Minted, OnlyBook, Paid, Held, Pools;
    MintedAt(s, user, amount);
  }

  lemma MintedAt(s: State, user: Address, amount: int)
    ensures var t := Minted(s, user, amount);
            && OnlyBook(s, t) && Paid(s.book, t.book, user, s.cfg.self, amount)
            && Held(s.book, t.book, user, amount, amount) && Pools(s.book, t.book, 0, 0, amount)
  {
    hide Get, Set, Move;
    SetOthers(s.book.yes, user, Get(s.book.yes, user) + amount);
    SetOthers(s.book.no, user, Get(s.book.no, user) + amount);
    MovedAt(s.book.tokens, user, s.cfg.self, amount);
  }

  /** Anybody but the contract can merge what they hold of both sides, while the market is open and
      has the collateral, which it always has when nobody is in debt. */
  lemma MergeDoes(s: State, now: nat, user: Address, amount: int)
    ensures var r, b := Exec(s, Event(now, Merge(user, amount))), s.book;
            && (r.Ok? <==>
                  && user != s.cfg.self && s.status == Open && 1 <= amount
                  && amount <= Get(b.yes, user) && amount <= Get(b.no, user) && amount <= Get(b.tokens, s.cfg.self))
            && (r.Ok? ==>
                  var (t, v) := r.value;
                  && v == 0 && OnlyBook(s, t) && Paid(b, t.book, s.cfg.self, user, amount)
                  && Held(b, t.book, user, -amount, -amount) && Pools(b, t.book, 0, 0, -amount))
            && (r.Err? ==>
                  r.error == if user == s.cfg.self then AuthTrap
                             else if s.status != Open then MarketNotOpen
                             else if amount < 1 then InvalidAmount
                             else if Get(b.yes, user) < amount || Get(b.no, user) < amount then InsufficientBalance
                             else TokenTrap)
  {
    hide Get, X.Burned, OnlyBook, Paid, Held, Pools;
    BurnedAt(s, user, amount);
  }

  lemma BurnedAt(s: State, user: Address, amount: int)
    ensures var t := Burned(s, user, amount);
            && OnlyBook(s, t) && Paid(s.book, t.book, s.cfg.self, user, amount)
            && Held(s.book, t.book, user, -amount, -amount) && Pools(s.book, t.book, 0, 0, -amount)
  {
    hide Get, Set, Move;
    SetOthers(s.book.yes, user, Get(s.book.yes, user) - amount);
    SetOthers(s.book.no, user, Get(s.book.no, user) - amount);
    MovedAt(s.book.tokens, s.cfg.self, user, amount);
  }

  lemma MergeIsCovered(s: State, user: Address, amount: int, donated: int, odd: nat)
    requires Backed(s, donated, odd) && NoDebt(s) && 0 <= donated && s.status == Open
    requires amount <= Get(s.book.yes, user)
    ensures amount <= Get(s.book.tokens, s.cfg.self)
  {
    hide Sum, Get, NonNegative;
    BalanceAtMostSum(s.book.yes, user);
  }

  // ----- trades

  /** Both reserves, that of one side first: the one a trade adds shares to. */
  ghost function Sides(b: Book, first: Prediction): (int, int) {
    if first.Yes? then (b.poolYes, b.poolNo) else (b.poolNo, b.poolYes)
  }

  /** A buy succeeds exactly when somebody other than the contract buys for a positive amount they
      have, while trading is open and something is locked, and what is left of it after the charge
      swaps for at least what was asked and less than half of the reserve. */
  lemma BuySucceeds(s: State, now: nat, user: Address, side: Prediction, collateral: int, min: int,
                    donated: int, odd: nat)
    requires Backed(s, donated, odd)
    ensures var (rin, rout) := Sides(s.book, side.Other());
            Exec(s, Event(now, Buy(user, side, collateral, min))).Ok? <==>
              && user != s.cfg.self && s.status == Open && now < s.cfg.expiry && 1 <= collateral
              && collateral <= Get(s.book.tokens, user)
              && 0 <= Get(if side.Yes? then s.book.no else s.book.yes, user)
              && s.book.totalSupply != 0
              && exists out :: Swaps(rin, rout, Net(s, collateral), out) && 2 * out < rout && min <= out
  {
    hide Exec, Get, Net, CpmmOut, Sum, Swaps, Bought;
    if s.status == Open && 1 <= collateral && s.book.totalSupply != 0 {
      var (rin, rout) := Sides(s.book, side.Other());
      BuyAnswer(s, now, user, side, collateral, min);
      OutOf(rin, rout, Net(s, collateral));
    } else {
      BuyRefused(s, now, user, side, collateral, min);
    }
  }

  /** It pays the collateral, gets its collateral's worth of shares and the swap's output, and leaves
      everybody else alone. */
  lemma BuyDoes(s: State, now: nat, user: Address, side: Prediction, collateral: int, min: int, donated: int, odd: nat)
    requires Backed(s, donated, odd) && Exec(s, Event(now, Buy(user, side, collateral, min))).Ok?
    ensures s.book.totalSupply != 0
    ensures var (t, v) := Exec(s, Event(now, Buy(user, side, collateral, min))).value;
            var (rin, rout) := Sides(s.book, side.Other());
            var out := v - collateral;
            var w := Charge(s, collateral);
            && 10_000 * w <= collateral * Rate(s) < 10_000 * (w + 1)
            && Swaps(rin, rout, collateral - w, out)
            && OnlyBook(s, t) && Paid(s.book, t.book, user, s.cfg.self, collateral)
            && (side.Yes? ==> Held(s.book, t.book, user, v, 0) && Pools(s.book, t.book, -out, collateral, collateral))
            && (side.No? ==> Held(s.book, t.book, user, 0, v) && Pools(s.book, t.book, collateral, -out, collateral))
  {
    hide Exec, Get, Charge, Rate, CpmmOut, Sum, Swaps, Bought, OnlyBook, Paid, Held, Pools, X.FeeBps, ApplyFee;
    BuyRefused(s, now, user, side, collateral, min);
    FeeIsCharged(s, collateral);
    BuyAnswer(s, now, user, side, collateral, min);
    var (rin, rout) := Sides(s.book, side.Other());
    OutOf(rin, rout, Net(s, collateral));
    BoughtAt(s, user, side, collateral, CpmmOut(rin, rout, Net(s, collateral)));
  }

  /** Why a buy is refused: the first thing wrong with it. */
  lemma BuyRefusal(s: State, now: nat, user: Address, side: Prediction, collateral: int, min: int,
                   donated: int, odd: nat)
    requires Backed(s, donated, odd) && Exec(s, Event(now, Buy(user, side, collateral, min))).Err?
    ensures var (rin, rout) := Sides(s.book, side.Other());
            Exec(s, Event(now, Buy(user, side, collateral, min))).error ==
            if user == s.cfg.self then AuthTrap
            else if s.status != Open then MarketNotOpen
            else if s.cfg.expiry <= now then TradingClosed
            else if collateral < 1 then InvalidAmount
            else if s.book.totalSupply == 0 || rin + Net(s, collateral) == 0 then ArithmeticTrap
            else if rin + Net(s, collateral) < 0 ||
                    exists out :: Swaps(rin, rout, Net(s, collateral), out) && rout <= 2 * out then PoolDepthExceeded
            else if exists out :: Swaps(rin, rout, Net(s, collateral), out) && out < min then SlippageExceeded
            else if Get(s.book.tokens, user) < collateral then TokenTrap
            else InsufficientBalance
  {
    hide Exec, Get, Net, CpmmOut, Sum, Swaps, Bought;
    if s.status == Open && 1 <= collateral && s.book.totalSupply != 0 {
      var (rin, rout) := Sides(s.book, side.Other());
      BuyAnswer(s, now, user, side, collateral, min);
      OutOf(rin, rout, Net(s, collateral));
    } else {
      BuyRefused(s, now, user, side, collateral, min);
    }
  }

  lemma BuyRefused(s: State, now: nat, user: Address, side: Prediction, collateral: int, min: int)
    ensures s.status != Open || collateral < 1 || s.book.totalSupply == 0 ==>
              Exec(s, Event(now, Buy(user, side, collateral, min))) ==
              Err(if user == s.cfg.self then AuthTrap
                  else if s.status != Open then MarketNotOpen
                  else if s.cfg.expiry <= now then TradingClosed
                  else if collateral < 1 then InvalidAmount
                  else ArithmeticTrap)
  {
  }

  lemma BuyAnswer(s: State, now: nat, user: Address, side: Prediction, collateral: int, min: int)
    requires ValidConfig(s.cfg) && s.status == Open && 1 <= collateral && s.book.totalSupply != 0
    ensures var (rin, rout) := Sides(s.book, side.Other());
            var n := rin + Net(s, collateral);
            Exec(s, Event(now, Buy(user, side, collateral, min))) ==
            if user == s.cfg.self then Err(AuthTrap)
            else if s.cfg.expiry <= now then Err(TradingClosed)
            else if n == 0 then Err(ArithmeticTrap)
            else
              var out := CpmmOut(rin, rout, n - rin);
              if rout <= 2 * out then Err(PoolDepthExceeded)
              else if out < min then Err(SlippageExceeded)
              else if Get(s.book.tokens, user) < collateral then Err(TokenTrap)
              else if Get(if side.Yes? then s.book.no else s.book.yes, user) < 0 then Err(InsufficientBalance)
              else Ok((Bought(s, user, side, collateral, out), collateral + out))
  {
    hide Get, Net, CpmmOut, ApplyFee, X.FeeBps, Set, Move, X.Bought;
    FeeIsCharged(s, collateral);
  }

  /** The output is the one that swaps; past the reserve nothing swaps, and the guard refuses. */
  lemma OutOf(rin: int, rout: int, eff: int)
    requires 1 <= rin && 1 <= rout
    ensures rin + eff < 0 ==> rout <= 2 * CpmmOut(rin, rout, eff)
    ensures rin + eff < 1 ==> forall out :: !Swaps(rin, rout, eff, out)
    ensures 1 <= rin + eff ==> forall out :: Swaps(rin, rout, eff, out) <==> out == CpmmOut(rin, rout, eff)
    ensures 1 <= rin + eff ==> Swaps(rin, rout, eff, CpmmOut(rin, rout, eff))
  {
    hide CpmmOut;
    if rin + eff < 0 && 2 * CpmmOut(rin, rout, eff) < rout {
      GuardedInputPositive(rin, rout, eff);
    }
    if 1 <= rin + eff {
      hide Swaps;
      forall out ensures Swaps(rin, rout, eff, out) <==> out == CpmmOut(rin, rout, eff) {
        SwapsIff(rin, rout, eff, out);
      }
    }
  }

  lemma BoughtAt(s: State, user: Address, side: Prediction, collateral: int, out: int)
    ensures var t, v := Bought(s, user, side, collateral, out), collateral + out;
            && OnlyBook(s, t) && Paid(s.book, t.book, user, s.cfg.self, collateral)
            && (side.Yes? ==> Held(s.book, t.book, user, v, 0) && Pools(s.book, t.book, -out, collateral, collateral))
            && (side.No? ==> Held(s.book, t.book, user, 0, v) && Pools(s.book, t.book, collateral, -out, collateral))
  {
    hide Get, Set, Move;
    SetOthers(s.book.Shares(side), user, s.book.Bal(side, user) + collateral + out);
    MovedAt(s.book.tokens, user, s.cfg.self, collateral);
  }

  /** A sell succeeds exactly when somebody other than the contract sells a positive amount they
      hold, while trading is open and something is locked, something is left after the charge, and
      the nearest payout is at least one unit and what was asked, less than half of the reserve, and
      covered by the collateral. */
  lemma SellSucceeds(s: State, now: nat, user: Address, side: Prediction, shares: int, min: int,
                     donated: int, odd: nat)
    requires Backed(s, donated, odd)
    ensures var (rin, rout) := Sides(s.book, side);
            Exec(s, Event(now, Sell(user, side, shares, min))).Ok? <==>
              && user != s.cfg.self && s.status == Open && now < s.cfg.expiry
              && 1 <= shares <= Get(if side.Yes? then s.book.yes else s.book.no, user)
              && s.book.totalSupply != 0 && 1 <= Net(s, shares)
              && exists x :: Nearest(rin, rout, Net(s, shares), x) && 2 * x < rout && 1 <= x && min <= x
                             && x <= Get(s.book.tokens, s.cfg.self)
  {
    hide Exec, Get, Net, CpmmSellOut, Sum, Nearest, Sold;
    if s.status == Open && 1 <= shares && s.book.totalSupply != 0 {
      var (rin, rout) := Sides(s.book, side);
      SellAnswer(s, now, user, side, shares, min);
      PayoutOf(rin, rout, Net(s, shares));
    } else {
      SellRefused(s, now, user, side, shares, min);
    }
  }

  /** It gives up its shares for the nearest payout, and leaves everybody else alone. */
  lemma SellDoes(s: State, now: nat, user: Address, side: Prediction, shares: int, min: int, donated: int, odd: nat)
    requires Backed(s, donated, odd) && Exec(s, Event(now, Sell(user, side, shares, min))).Ok?
    ensures s.book.totalSupply != 0
    ensures var (t, x) := Exec(s, Event(now, Sell(user, side, shares, min))).value;
            var (rin, rout) := Sides(s.book, side);
            var w := Charge(s, shares);
            && 10_000 * w <= shares * Rate(s) < 10_000 * (w + 1)
            && Nearest(rin, rout, shares - w, x)
            && OnlyBook(s, t) && Paid(s.book, t.book, s.cfg.self, user, x)
            && (side.Yes? ==> Held(s.book, t.book, user, -shares, 0) && Pools(s.book, t.book, shares - x, -x, -x))
            && (side.No? ==> Held(s.book, t.book, user, 0, -shares) && Pools(s.book, t.book, -x, shares - x, -x))
  {
    hide Exec, Get, Charge, Rate, CpmmSellOut, Sum, Nearest, Sold, OnlyBook, Paid, Held, Pools, X.FeeBps, ApplyFee;
    SellRefused(s, now, user, side, shares, min);
    FeeIsCharged(s, shares);
    SellAnswer(s, now, user, side, shares, min);
    var (rin, rout) := Sides(s.book, side);
    PayoutOf(rin, rout, Net(s, shares));
    SoldAt(s, user, side, shares, CpmmSellOut(rin, rout, Net(s, shares)));
  }

  /** Why a sell is refused: the first thing wrong with it. */
  lemma SellRefusal(s: State, now: nat, user: Address, side: Prediction, shares: int, min: int,
                    donated: int, odd: nat)
    requires Backed(s, donated, odd) && Exec(s, Event(now, Sell(user, side, shares, min))).Err?
    ensures var (rin, rout) := Sides(s.book, side);
            Exec(s, Event(now, Sell(user, side, shares, min))).error ==
            if user == s.cfg.self then AuthTrap
            else if s.status != Open then MarketNotOpen
            else if s.cfg.expiry <= now then TradingClosed
            else if shares < 1 then InvalidAmount
            else if Get(if side.Yes? then s.book.yes else s.book.no, user) < shares then InsufficientBalance
            else if s.book.totalSupply == 0 then ArithmeticTrap
            else if 1 <= Net(s, shares) && exists x :: Nearest(rin, rout, Net(s, shares), x) && rout <= 2 * x
              then PoolDepthExceeded
            else if Net(s, shares) < 1 || exists x :: Nearest(rin, rout, Net(s, shares), x) && (x < 1 || x < min)
              then SlippageExceeded
            else TokenTrap
  {
    hide Exec, Get, Net, CpmmSellOut, Sum, Nearest, Sold;
    if s.status == Open && 1 <= shares && s.book.totalSupply != 0 {
      var (rin, rout) := Sides(s.book, side);
      SellAnswer(s, now, user, side, shares, min);
      PayoutOf(rin, rout, Net(s, shares));
    } else {
      SellRefused(s, now, user, side, shares, min);
    }
  }

  lemma SellRefused(s: State, now: nat, user: Address, side: Prediction, shares: int, min: int)
    ensures s.status != Open || shares < 1 || s.book.totalSupply == 0 ==>
              Exec(s, Event(now, Sell(user, side, shares, min))) ==
              Err(if user == s.cfg.self then AuthTrap
                  else if s.status != Open then MarketNotOpen
                  else if s.cfg.expiry <= now then TradingClosed
                  else if shares < 1 then InvalidAmount
                  else if Get(if side.Yes? then s.book.yes else s.book.no, user) < shares then InsufficientBalance
                  else ArithmeticTrap)
  {
    hide Get;
  }

  lemma SellAnswer(s: State, now: nat, user: Address, side: Prediction, shares: int, min: int)
    requires ValidConfig(s.cfg) && s.status == Open && 1 <= shares && s.book.totalSupply != 0
    ensures var (rin, rout) := Sides(s.book, side);
            var x := CpmmSellOut(rin, rout, Net(s, shares));
            Exec(s, Event(now, Sell(user, side, shares, min))) ==
            if user == s.cfg.self then Err(AuthTrap)
            else if s.cfg.expiry <= now then Err(TradingClosed)
            else if Get(if side.Yes? then s.book.yes else s.book.no, user) < shares then Err(InsufficientBalance)
            else if rout <= 2 * x then Err(PoolDepthExceeded)
            else if x < 1 || x < min then Err(SlippageExceeded)
            else if Get(s.book.tokens, s.cfg.self) < x then Err(TokenTrap)
            else Ok((Sold(s, user, side, shares, x), x))
  {
    hide Get, Net, CpmmSellOut, ApplyFee, X.FeeBps, Set, Move, X.Sold;
    FeeIsCharged(s, shares);
  }

  lemma PayoutOf(rin: int, rout: int, eff: int)
    requires 1 <= rin && 1 <= rout
    ensures eff < 1 ==> CpmmSellOut(rin, rout, eff) < 1
    ensures 1 <= eff ==> forall x :: Nearest(rin, rout, eff, x) <==> x == CpmmSellOut(rin, rout, eff)
    ensures 1 <= eff ==> Nearest(rin, rout, eff, CpmmSellOut(rin, rout, eff))
  {
    hide CpmmSellOut, Nearest;
    if eff < 1 {
      SellOutNothing(rin, rout, eff);
    } else {
      forall x ensures Nearest(rin, rout, eff, x) <==> x == CpmmSellOut(rin, rout, eff) {
        NearestIff(rin, rout, eff, x);
      }
    }
  }

  lemma SoldAt(s: State, user: Address, side: Prediction, shares: int, x: int)
    ensures var t := Sold(s, user, side, shares, x);
            && OnlyBook(s, t) && Paid(s.book, t.book, s.cfg.self, user, x)
            && (side.Yes? ==> Held(s.book, t.book, user, -shares, 0) && Pools(s.book, t.book, shares - x, -x, -x))
            && (side.No? ==> Held(s.book, t.book, user, 0, -shares) && Pools(s.book, t.book, -x, shares - x, -x))
  {
    hide Get, Set, Move;
    SetOthers(s.book.Shares(side), user, s.book.Bal(side, user) - shares);
    MovedAt(s.book.tokens, s.cfg.self, user, x);
  }

  // ----- transfers

  /** Anybody but the contract can send any positive part of a balance to anybody, in any status;
      the other side and the collateral do not move. */
  lemma TransferDoes(s: State, now: nat, from: Address, to: Address, side: Prediction, amount: int)
    ensures var r, b := Exec(s, Event(now, Transfer(from, to, side, amount))), s.book;
            var held := if side.Yes? then b.yes else b.no;
            && (r.Ok? <==> from != s.cfg.self && 1 <= amount <= Get(held, from))
            && (r.Ok? ==>
                  var (t, v) := r.value;
                  && v == 0 && OnlyBook(s, t) && Pools(b, t.book, 0, 0, 0) && t.book.tokens == b.tokens
                  && (if side.Yes? then t.book.no == b.no else t.book.yes == b.yes)
                  && forall a :: Get(if side.Yes? then t.book.yes else t.book.no, a) ==
                                 Get(held, a) - (if a == from then amount else 0) + (if a == to then amount else 0))
            && (r.Err? ==>
                  r.error == if from == s.cfg.self then AuthTrap
                             else if amount < 1 then InvalidAmount
                             else InsufficientBalance)
  {
    hide Get, Set, Move;
    MovedAt(s.book.Shares(side), from, to, amount);
  }

  /** The collateral token moves for anybody but the contract, by what they have. */
  lemma TokenTransferDoes(s: State, now: nat, from: Address, to: Address, amount: int)
    ensures var r, b := Exec(s, Event(now, TokenTransfer(from, to, amount))), s.book;
            && (r.Ok? <==> from != s.cfg.self && 0 <= amount <= Get(b.tokens, from))
            && (r.Ok? ==>
                  var (t, v) := r.value;
                  && v == 0 && OnlyBook(s, t) && Paid(b, t.book, from, to, amount)
                  && Held(b, t.book, from, 0, 0) && Pools(b, t.book, 0, 0, 0))
            && (r.Err? ==> r.error == if from == s.cfg.self then AuthTrap else TokenTrap)
  {
    hide Get, Set, Move;
    MovedAt(s.book.tokens, from, to, amount);
  }

  // ----- closing

  /** The pools' shares are the treasury's, and nothing else moved. */
  ghost predicate PoolsHandedOver(s: State, t: State) {
    && t.cfg == s.cfg && t.book.tokens == s.book.tokens && t.book.totalSupply == s.book.totalSupply
    && t.book.poolYes == 0 && t.book.poolNo == 0
    && Held(s.book, t.book, s.cfg.treasury, s.book.poolYes, s.book.poolNo)
  }

  lemma ClosedAt(s: State, status: Status, finalPrice: int)
    ensures PoolsHandedOver(s, Closed(s, status, finalPrice))
  {
    hide Get, Set;
    SetOthers(s.book.yes, s.cfg.treasury, Get(s.book.yes, s.cfg.treasury) + s.book.poolYes);
    SetOthers(s.book.no, s.cfg.treasury, Get(s.book.no, s.cfg.treasury) + s.book.poolNo);
  }

  /** The configured oracles stand behind so many cents. */
  ghost predicate Agreed(cfg: Config, now: nat, reflector: Reading, redstone: Reading, cents: int) {
    && Corroborates(cfg.reflector, reflector, now, cents)
    && (cfg.redstone.Some? ==> Corroborates(cfg.redstone.value, redstone, now, cents))
  }

  /** A settlement succeeds exactly when an open, expired market gets a signed price dated around its
      expiry that every configured oracle's own answer stands behind; it records that price and the
      side of the strike it lies on. */
  lemma SettleDoes(s: State, now: nat, update: Update, reflector: Reading, redstone: Reading)
    ensures var r := Exec(s, Event(now, Settle(update, reflector, redstone)));
            && (r.Ok? <==>
                  && s.status == Open && s.cfg.expiry <= now
                  && exists cents :: SignedPrice(update, s.cfg.feedId, s.cfg.expiry, cents)
                                     && Agreed(s.cfg, now, reflector, redstone, cents))
            && (r.Ok? ==>
                  var (t, v) := r.value;
                  && v == 0 && PoolsHandedOver(s, t)
                  && SignedPrice(update, s.cfg.feedId, s.cfg.expiry, t.finalPrice)
                  && t.status == if s.cfg.strikePrice <= t.finalPrice then ResolvedYes else ResolvedNo)
  {
    hide FeedCents, Corroborate, SignedPrice, Corroborates, PoolsHandedOver, Closed;
    var call := Settle(update, reflector, redstone);
    var price := FeedCents(update, s.cfg.feedId, s.cfg.expiry);
    forall cents ensures SignedPrice(update, s.cfg.feedId, s.cfg.expiry, cents) <==> price == Ok(cents) {
      FeedCentsIff(update, s.cfg.feedId, s.cfg.expiry, cents);
    }
    if price.Ok? {
      CorroborateIff(s.cfg.reflector, reflector, now, price.value);
      if s.cfg.redstone.Some? {
        CorroborateIff(s.cfg.redstone.value, redstone, now, price.value);
      }
      var status := if s.cfg.strikePrice <= price.value then ResolvedYes else ResolvedNo;
      ClosedAt(s, status, price.value);
      ClosedAs(s, status, price.value);
    }
  }

  lemma ClosedAs(s: State, status: Status, finalPrice: int)
    ensures Closed(s, status, finalPrice).status == status && Closed(s, status, finalPrice).finalPrice == finalPrice
  {
  }

  /** What a refused oracle answer is called, the first one first. */
  lemma SettleRefusal(s: State, now: nat, update: Update, reflector: Reading, redstone: Reading)
    ensures var r := Exec(s, Event(now, Settle(update, reflector, redstone)));
            var price := FeedCents(update, s.cfg.feedId, s.cfg.expiry);
            r.Err? ==>
              if s.status != Open then r.error == AlreadyFinalized
              else if now < s.cfg.expiry then r.error == ExpiryNotReached
              else if price.Err? then r.error == price.error
              else
                var first := Corroborate(s.cfg.reflector, reflector, now, price.value);
                if first.Some? then
                  && (first.value == Unavailable ==> r.error == ReflectorPriceUnavailable)
                  && (first.value == Stale ==> r.error == ReflectorPriceStale)
                  && (first.value == DecimalsInvalid ==> r.error == ReflectorDecimalsInvalid)
                  && (first.value == DecimalsChanged ==> r.error == ReflectorDecimalsChanged)
                  && (first.value == Divergent ==> r.error == OracleDivergence)
                else
                  s.cfg.redstone.Some? &&
                  var second := Corroborate(s.cfg.redstone.value, redstone, now, price.value);
                  && second.Some?
                  && (second.value == Unavailable ==> r.error == RedstonePriceUnavailable)
                  && (second.value == Stale ==> r.error == RedstonePriceStale)
                  && (second.value == DecimalsInvalid ==> r.error == RedstoneDecimalsInvalid)
                  && (second.value == DecimalsChanged ==> r.error == RedstoneDecimalsChanged)
                  && (second.value == Divergent ==> r.error == OracleDivergence)
  {
    hide FeedCents, Corroborate, Closed;
  }

  /** An open market can be cancelled by anybody from the end of the grace period on. */
  lemma CancelDoes(s: State, now: nat)
    ensures var r := Exec(s, Event(now, Cancel));
            && (r.Ok? <==> s.status == Open && s.cfg.expiry + s.cfg.gracePeriod <= now)
            && (r.Ok? ==>
                  var (t, v) := r.value;
                  v == 0 && PoolsHandedOver(s, t) && t.status == Cancelled && t.finalPrice == s.finalPrice)
            && (r.Err? ==> r.error == if s.status != Open then AlreadyFinalized else GracePeriodNotElapsed)
  {
    hide PoolsHandedOver, Closed;
    ClosedAt(s, Cancelled, s.finalPrice);
    ClosedAs(s, Cancelled, s.finalPrice);
  }

  // ----- redemption

  /** A final position is worth so much: its winning shares, or half of all shares, rounded toward
      zero. */
  ghost predicate Worth(s: State, user: Address, v: int) {
    match s.status
    case Open => false
    case ResolvedYes => v == Get(s.book.yes, user)
    case ResolvedNo => v == Get(s.book.no, user)
    case Cancelled =>
      var total := Get(s.book.yes, user) + Get(s.book.no, user);
      if total >= 0 then 2 * v <= total < 2 * v + 2 else 2 * v - 2 < total <= 2 * v
  }

  /** Anybody but the contract is paid what their final position is worth, if that is something and
      the collateral covers it; the whole position is gone and nobody else's has moved. */
  lemma RedeemDoes(s: State, now: nat, user: Address)
    ensures var r, b := Exec(s, Event(now, Redeem(user))), s.book;
            && (r.Ok? <==> user != s.cfg.self && exists v :: Worth(s, user, v) && 1 <= v <= Get(b.tokens, s.cfg.self))
            && (r.Ok? ==>
                  var (t, v) := r.value;
                  && Worth(s, user, v) && OnlyBook(s, t) && Paid(b, t.book, s.cfg.self, user, v)
                  && Held(b, t.book, user, -Get(b.yes, user), -Get(b.no, user)) && Pools(b, t.book, 0, 0, -v))
            && (r.Err? ==>
                  r.error == if user == s.cfg.self then AuthTrap
                             else if s.status == Open then NotFinalized
                             else if exists v :: Worth(s, user, v) && v < 1 then NothingToRedeem
                             else TokenTrap)
  {
    hide Get, Worth, Payout, X.Redeemed, OnlyBook, Paid, Held, Pools;
    forall v ensures Worth(s, user, v) <==> s.status != Open && v == Payout(s, user) {
      WorthIff(s, user, v);
    }
    assert s.status != Open ==> Worth(s, user, Payout(s, user));
    RedeemedAt(s, user, Payout(s, user));
  }

  lemma RedeemedAt(s: State, user: Address, v: int)
    ensures var t := Redeemed(s, user, v);
            && OnlyBook(s, t) && Paid(s.book, t.book, s.cfg.self, user, v)
            && Held(s.book, t.book, user, -Get(s.book.yes, user), -Get(s.book.no, user))
            && Pools(s.book, t.book, 0, 0, -v)
  {
    hide Get, Set, Move;
    SetOthers(s.book.yes, user, 0);
    SetOthers(s.book.no, user, 0);
    MovedAt(s.book.tokens, s.cfg.self, user, v);
  }

  lemma WorthIff(s: State, user: Address, v: int)
    ensures Worth(s, user, v) <==> s.status != Open && v == Payout(s, user)
  {
    hide Get;
  }

  // ----- initialization and quotes

  /** A market starts exactly when its parameters and oracles pass and its admin can pay the seed. */
  lemma InitializeDoes(cfg: Config, now: nat, tokens: Balances)
    ensures var r := Initialize(cfg, now, tokens);
            && (r.Ok? <==>
                  && cfg.admin != cfg.self && 1 <= cfg.strikePrice && now < cfg.expiry && 1 <= cfg.gracePeriod
                  && 1 <= cfg.feedId && cfg.minFeeBps <= cfg.baseFeeBps <= 1_000
                  && 1 <= cfg.initialLiquidity <= Get(tokens, cfg.admin)
                  && LegFits(cfg.reflector) && (cfg.redstone.Some? ==> LegFits(cfg.redstone.value)))
            && (r.Ok? ==>
                  var s, seed := r.value, cfg.initialLiquidity;
                  && s.cfg == cfg && s.status == Open && s.finalPrice == 0
                  && s.book.poolYes == seed && s.book.poolNo == seed && s.book.totalSupply == seed
                  && s.book.yes == map[] && s.book.no == map[]
                  && Paid(s.book.(tokens := tokens), s.book, cfg.admin, cfg.self, seed))
            && (r.Err? ==>
                  r.error == if cfg.admin == cfg.self then AuthTrap
                             else if cfg.strikePrice < 1 then InvalidStrikePrice
                             else if cfg.expiry <= now then InvalidExpiry
                             else if cfg.gracePeriod < 1 then InvalidGracePeriod
                             else if cfg.feedId < 1 then InvalidFeedId
                             else if 1_000 < cfg.baseFeeBps || cfg.baseFeeBps < cfg.minFeeBps then InvalidFeeBps
                             else if cfg.initialLiquidity < 1 then InvalidLiquidity
                             else if cfg.reflector.maxStaleness < cfg.reflector.resolutionAtInit
                               then InvalidReflectorConfig
                             else if !LegFits(cfg.reflector) then ReflectorDecimalsInvalid
                             else if cfg.redstone.Some? &&
                                     cfg.redstone.value.maxStaleness < cfg.redstone.value.resolutionAtInit
                               then InvalidRedstoneConfig
                             else if cfg.redstone.Some? && !LegFits(cfg.redstone.value) then RedstoneDecimalsInvalid
                             else TokenTrap)
  {
    hide Get, Set, Move;
    MovedAt(tokens, cfg.admin, cfg.self, cfg.initialLiquidity);
  }

  /** What an open market quotes: the other reserve's share of both in basis points, rounded down for
      Yes, and the rest for No; and the fee at the rate in force. */
  lemma QuotesDo(s: State, donated: int, odd: nat)
    requires Backed(s, donated, odd)
    ensures s.status != Open ==> PriceBps(s) == Err(MarketNotOpen)
    ensures s.status == Open ==>
              var total := s.book.poolYes + s.book.poolNo;
              && PriceBps(s).Ok?
              && var (yes, no) := PriceBps(s).value;
                 yes * total <= s.book.poolNo * 10_000 < (yes + 1) * total && no == 10_000 - yes
    ensures s.book.totalSupply != 0 ==> FeeBps(s) == Rate(s)
  {
    hide Sum, X.FeeBps, Rate, Get;
    if s.status == Open {
      var n, d := s.book.poolNo * FULL_BPS, s.book.poolYes + s.book.poolNo;
      DivBounds(n, d);
      MulMono(s.book.poolNo, d, FULL_BPS);
      if FULL_BPS < n / d {
        MulMono(FULL_BPS + 1, n / d, d);
      }
    }
    if s.book.totalSupply != 0 {
      FeeIsCharged(s, 0);
    }
  }

  /** An oracle can meet its own age limit and reported between 2 and 30 decimals. */
  ghost predicate LegFits(leg: Leg) {
    leg.resolutionAtInit <= leg.maxStaleness && 2 <= leg.decimalsAtInit <= 30
  }
}
