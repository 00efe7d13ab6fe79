/** The storage of both contracts, share balances, reserves, supply and the collateral token, and
    the handlers they have in common, written step by step and verified against Exchange. A
    handler that fails may leave half-written storage behind; the calling contract's host
    restores it. */
module Storage {
  import opened Arithmetic
  import opened CtfMath
  import opened Ledger
  import opened Types
  import X = Exchange

  /** A handler's result and the storage it leaves agree with the transition of the book. */
  ghost predicate Matches(expected: X.Outcome, after: Book, r: Result<int>) {
    match r
    case Ok(v) => expected == Ok((after, v))
    case Err(e) => expected == Err(e)
  }

  class Desk {
    const terms: X.Terms
    var poolYes: int
    var poolNo: int
    var totalSupply: int
    var yes: Balances
    var no: Balances
    var tokens: Balances  // balances of the collateral token, kept by another contract

    function View(): Book
      reads this
    {
      Book(poolYes, poolNo, totalSupply, yes, no, tokens)
    }

    /** Nothing issued yet. */
    constructor (terms: X.Terms, tokens: Balances)
      ensures this.terms == terms
      ensures View() == Book(0, 0, 0, map[], map[], tokens)
    {
      this.terms := terms;
      poolYes, poolNo, totalSupply := 0, 0, 0;
      yes, no, this.tokens := map[], map[], tokens;
    }

    /** Puts back a state read earlier. */
    method Restore(saved: Book)
      modifies this
      ensures View() == saved
    {
      poolYes, poolNo, totalSupply := saved.poolYes, saved.poolNo, saved.totalSupply;
      yes, no, tokens := saved.yes, saved.no, saved.tokens;
    }

    // ----- ledgers

    method BalanceOf(side: Prediction, a: Address) returns (v: int)
      ensures v == View().Bal(side, a)
    {
      match side
      case Yes => v := Get(yes, a);
      case No => v := Get(no, a);
    }

    method SetBalance(side: Prediction, a: Address, v: int)
      modifies this`yes, this`no
      ensures View() == old(View()).WithBal(side, a, v)
    {
      match side
      case Yes => yes := Set(yes, a, v);
      case No => no := Set(no, a, v);
    }

    method Credit(side: Prediction, a: Address, amount: int)
      modifies this`yes, this`no
      ensures View() == old(View()).Credit(side, a, amount)
    {
      var b := BalanceOf(side, a);
      SetBalance(side, a, b + amount);
    }

    method Debit(side: Prediction, a: Address, amount: int) returns (ok: bool)
      modifies this`yes, this`no
      ensures ok <==> amount <= old(View()).Bal(side, a)
      ensures ok ==> View() == old(View()).Credit(side, a, -amount)
      ensures !ok ==> View() == old(View())
    {
      var b := BalanceOf(side, a);
      if b < amount {
        return false;
      }
      SetBalance(side, a, b - amount);
      return true;
    }

    /** Sets both reserves, the one of `side` first. */
    method SetReserves(side: Prediction, v: int, other: int)
      modifies this`poolYes, this`poolNo
      ensures View() == old(View()).WithReserve(side, v).WithReserve(side.Other(), other)
    {
      match side
      case Yes => poolYes := v; poolNo := other;
      case No => poolNo := v; poolYes := other;
    }

    /** The collateral token's own transfer; it refuses an uncovered amount. */
    method PayTokens(from: Address, to: Address, amount: int) returns (ok: bool)
      modifies this`tokens
      ensures ok <==> old(View()).CanPay(from, amount)
      ensures ok ==> View() == old(View()).Pay(from, to, amount)
      ensures !ok ==> View() == old(View())
    {
      if amount < 0 || Get(tokens, from) < amount {
        return false;
      }
      tokens := Set(tokens, from, Get(tokens, from) - amount);
      tokens := Set(tokens, to, Get(tokens, to) + amount);
      return true;
    }

    /** Locks collateral and mints that many shares of each side. */
    method MintPairs(user: Address, amount: int) returns (ok: bool)
      modifies this`yes, this`no, this`tokens, this`totalSupply
      ensures ok <==> old(View()).CanPay(user, amount)
      ensures View() == if ok then X.Minted(terms.self, old(View()), user, amount) else old(View())
    {
      hide Book.Pay, Book.Credit;
      ok := PayTokens(user, terms.self, amount);
      if !ok {
        return;
      }
      Credit(Yes, user, amount);
      Credit(No, user, amount);
      totalSupply := totalSupply + amount;
    }

    /** Pulls the seed from the admin and puts that many shares of each side into the pool. */
    method Seed(admin: Address, seed: int) returns (ok: bool)
      modifies this
      ensures ok <==> old(View()).CanPay(admin, seed)
      ensures ok ==>
                View() == Book(seed, seed, seed, old(yes), old(no), Move(old(tokens), admin, terms.self, seed))
    {
      ok := PayTokens(admin, terms.self, seed);
      if ok {
        poolYes, poolNo, totalSupply := seed, seed, seed;
      }
    }

    /** The reserves become the treasury's shares. */
    method Close()
      modifies this`yes, this`no, this`poolYes, this`poolNo
      ensures View() == X.Closed(terms.treasury, old(View()))
    {
      Credit(Yes, terms.treasury, poolYes);
      Credit(No, terms.treasury, poolNo);
      poolYes := 0;
      poolNo := 0;
    }

    // ----- handlers

    method Split(open: bool, user: Address, amount: int) returns (r: Result<int>)
      modifies this
      ensures Matches(X.Split(terms, open, old(View()), user, amount), View(), r)
    {
      if user == terms.self {
        return Err(AuthTrap);
      }
      if !open {
        return Err(MarketNotOpen);
      }
      if amount <= 0 {
        return Err(InvalidAmount);
      }
      var paid := MintPairs(user, amount);
      if !paid {
        return Err(TokenTrap);
      }
      return Ok(0);
    }

    method Merge(open: bool, user: Address, amount: int) returns (r: Result<int>)
      modifies this
      ensures Matches(X.Merge(terms, open, old(View()), user, amount), View(), r)
    {
      if user == terms.self {
        return Err(AuthTrap);
      }
      if !open {
        return Err(MarketNotOpen);
      }
      if amount <= 0 {
        return Err(InvalidAmount);
      }
      var ok := Debit(Yes, user, amount);
      if !ok {
        return Err(InsufficientBalance);
      }
      ok := Debit(No, user, amount);
      if !ok {
        return Err(InsufficientBalance);
      }
      ok := PayTokens(terms.self, user, amount);
      if !ok {
        return Err(TokenTrap);
      }
      totalSupply := totalSupply - amount;
      return Ok(0);
    }

    method Buy(open: bool, user: Address, side: Prediction, collateral: int, minSharesOut: int)
      returns (r: Result<int>)
      modifies this
      ensures Matches(X.Buy(terms, open, old(View()), user, side, collateral, minSharesOut), View(), r)
    {
      hide CpmmOut, ApplyFee, EffectiveFeeBps;
      if user == terms.self {
        return Err(AuthTrap);
      }
      if !open {
        return Err(MarketNotOpen);
      }
      if collateral <= 0 {
        return Err(InvalidAmount);
      }
      var unwanted := side.Other();
      var reserveIn := if unwanted.Yes? then poolYes else poolNo;
      var reserveOut := if unwanted.Yes? then poolNo else poolYes;
      if totalSupply == 0 {
        return Err(ArithmeticTrap);
      }
      var fee := EffectiveFeeBps(terms.baseFeeBps, terms.minFeeBps, terms.initialLiquidity, totalSupply);
      var effectiveIn := ApplyFee(collateral, fee);
      if reserveIn + effectiveIn == 0 {
        return Err(ArithmeticTrap);
      }
      var amountOut := CpmmOut(reserveIn, reserveOut, effectiveIn);
      if amountOut * 2 >= reserveOut {
        return Err(PoolDepthExceeded);
      }
      if amountOut < minSharesOut {
        return Err(SlippageExceeded);
      }
      r := SwapIn(user, side, collateral, reserveIn, reserveOut, amountOut);
    }

    /** The writing half of a buy: both sides are minted, the unwanted one goes to the pool and
        the swap's output comes out of it. */
    method SwapIn(user: Address, side: Prediction, collateral: int, reserveIn: int, reserveOut: int, amountOut: int)
      returns (r: Result<int>)
      requires reserveIn == View().Reserve(side.Other()) && reserveOut == View().Reserve(side)
      modifies this
      ensures Matches(
                if !old(View()).CanPay(user, collateral) then Err(TokenTrap)
                else if old(View()).Bal(side.Other(), user) < 0 then Err(InsufficientBalance)
                else Ok((X.Bought(terms.self, old(View()), user, side, collateral, amountOut), collateral + amountOut)),
                View(), r)
    {
      hide Book.Pay, Book.Credit, Book.WithReserve;
      var unwanted := side.Other();
      var ok := MintPairs(user, collateral);
      if !ok {
        return Err(TokenTrap);
      }
      MintThenSwap(old(View()), terms.self, user, side, collateral, amountOut);
      ok := Debit(unwanted, user, collateral);
      if !ok {
        return Err(InsufficientBalance);
      }
      SetReserves(unwanted, reserveIn + collateral, reserveOut - amountOut);
      Credit(side, user, amountOut);
      return Ok(collateral + amountOut);
    }

    method Sell(open: bool, user: Address, side: Prediction, shares: int, minCollateralOut: int)
      returns (r: Result<int>)
      modifies this
      ensures Matches(X.Sell(terms, open, old(View()), user, side, shares, minCollateralOut), View(), r)
    {
      hide CpmmSellOut, ApplyFee, EffectiveFeeBps;
      if user == terms.self {
        return Err(AuthTrap);
      }
      if !open {
        return Err(MarketNotOpen);
      }
      if shares <= 0 {
        return Err(InvalidAmount);
      }
      var held := BalanceOf(side, user);
      if held < shares {
        return Err(InsufficientBalance);
      }
      var reserveIn := if side.Yes? then poolYes else poolNo;
      var reserveOut := if side.Yes? then poolNo else poolYes;
      if totalSupply == 0 {
        return Err(ArithmeticTrap);
      }
      var fee := EffectiveFeeBps(terms.baseFeeBps, terms.minFeeBps, terms.initialLiquidity, totalSupply);
      var collateralOut := CpmmSellOut(reserveIn, reserveOut, ApplyFee(shares, fee));
      if collateralOut * 2 >= reserveOut {
        return Err(PoolDepthExceeded);
      }
      if collateralOut <= 0 || collateralOut < minCollateralOut {
        return Err(SlippageExceeded);
      }
      r := SellOut(user, side, shares, reserveIn, reserveOut, collateralOut);
    }

    /** The writing half of a sell: the shares go to the pool, which gives up a matched pair for
        every unit of collateral paid. */
    method SellOut(user: Address, side: Prediction, shares: int, reserveIn: int, reserveOut: int, collateralOut: int)
      returns (r: Result<int>)
      requires reserveIn == View().Reserve(side) && reserveOut == View().Reserve(side.Other())
      requires shares <= View().Bal(side, user)
      modifies this
      ensures Matches(
                if !old(View()).CanPay(terms.self, collateralOut) then Err(TokenTrap)
                else Ok((X.Sold(terms.self, old(View()), user, side, shares, collateralOut), collateralOut)),
                View(), r)
    {
      hide Book.Pay, Book.Credit, Book.WithReserve;
      var ok := Debit(side, user, shares);
      if !ok {
        return Err(InsufficientBalance);
      }
      SetReserves(side, reserveIn + shares - collateralOut, reserveOut - collateralOut);
      ok := PayTokens(terms.self, user, collateralOut);
      if !ok {
        return Err(TokenTrap);
      }
      totalSupply := totalSupply - collateralOut;
      return Ok(collateralOut);
    }

    method Transfer(from: Address, to: Address, side: Prediction, amount: int) returns (r: Result<int>)
      modifies this
      ensures Matches(X.Transfer(terms, old(View()), from, to, side, amount), View(), r)
    {
      hide Get, Set;
      if from == terms.self {
        return Err(AuthTrap);
      }
      if amount <= 0 {
        return Err(InvalidAmount);
      }
      var ok := Debit(side, from, amount);
      if !ok {
        return Err(InsufficientBalance);
      }
      Credit(side, to, amount);
      return Ok(0);
    }

    /** Erases the position, then pays what it was worth. */
    method Redeem(user: Address, paid: int) returns (r: Result<int>)
      modifies this
      ensures Matches(X.Redeem(terms, old(View()), user, paid), View(), r)
    {
      hide Book.Pay, Book.WithBal;
      SetBalance(Yes, user, 0);
      SetBalance(No, user, 0);
      if paid <= 0 {
        return Err(NothingToRedeem);
      }
      var ok := PayTokens(terms.self, user, paid);
      if !ok {
        return Err(TokenTrap);
      }
      totalSupply := totalSupply - paid;
      return Ok(paid);
    }

    method TokenTransfer(from: Address, to: Address, amount: int) returns (r: Result<int>)
      modifies this
      ensures Matches(X.TokenTransfer(terms, old(View()), from, to, amount), View(), r)
    {
      if from == terms.self {
        return Err(AuthTrap);
      }
      var ok := PayTokens(from, to, amount);
      if !ok {
        return Err(TokenTrap);
      }
      return Ok(0);
    }

    method GetPrice() returns (r: Result<(int, int)>)
      ensures r == X.PriceBps(View())
    {
      var total := poolYes + poolNo;
      if total == 0 {
        return Err(ArithmeticTrap);
      }
      var yesBps := TruncDiv(poolNo * FULL_BPS, total) % U32;
      return Ok((yesBps, FULL_BPS - yesBps));
    }
  }
}
