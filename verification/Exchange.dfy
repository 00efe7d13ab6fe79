/** What the two contracts have in common: the effects of a call on the book, and the handlers
    that guard them. The status, the clock and who may close the market are each contract's own. */
module Exchange {
  import opened Arithmetic
  import opened CtfMath
  import opened Ledger
  import opened Types

  /** Fixed at initialization. `self` is the contract's own address. */
  datatype Terms = Terms(self: Address, treasury: Address, baseFeeBps: nat, minFeeBps: nat, initialLiquidity: int)

  /** The book after a successful call and the value it returns (0 for unit). */
  type Outcome = Result<(Book, int)>

  // ----- effects

  /** `amount` collateral locked, `amount` shares of each side minted. */
  function Minted(self: Address, b: Book, user: Address, amount: int): Book {
    b.Pay(user, self, amount).Credit(Yes, user, amount).Credit(No, user, amount).Supply(amount)
  }

  /** `amount` shares of each side burned, `amount` collateral released. */
  function Burned(self: Address, b: Book, user: Address, amount: int): Book {
    b.Credit(Yes, user, -amount).Credit(No, user, -amount).Pay(self, user, amount).Supply(-amount)
  }

  /** Net effect of split-then-swap: the buyer's unwanted side is untouched. */
  function Bought(self: Address, b: Book, user: Address, side: Prediction, collateral: int, out: int): Book {
    b.Pay(user, self, collateral)
    .Credit(side, user, collateral + out)
    .WithReserve(side.Other(), b.Reserve(side.Other()) + collateral)
    .WithReserve(side, b.Reserve(side) - out)
    .Supply(collateral)
  }

  function Sold(self: Address, b: Book, user: Address, side: Prediction, shares: int, paid: int): Book {
    b.Credit(side, user, -shares)
    .WithReserve(side, b.Reserve(side) + shares - paid)
    .WithReserve(side.Other(), b.Reserve(side.Other()) - paid)
    .Pay(self, user, paid)
    .Supply(-paid)
  }

  /** Both reserves become the treasury's shares. */
  function Closed(treasury: Address, b: Book): Book {
    b.Credit(Yes, treasury, b.poolYes).Credit(No, treasury, b.poolNo).WithReserve(Yes, 0).WithReserve(No, 0)
  }

  /** The position is wiped and `paid` leaves the contract. */
  function Redeemed(self: Address, b: Book, user: Address, paid: int): Book {
    b.WithBal(Yes, user, 0).WithBal(No, user, 0).Pay(self, user, paid).Supply(-paid)
  }

  // ----- quotes

  function FeeBps(t: Terms, b: Book): nat
    requires b.totalSupply != 0
  {
    EffectiveFeeBps(t.baseFeeBps, t.minFeeBps, t.initialLiquidity, b.totalSupply)
  }

  /** The pool's input reserve, output reserve and post-fee input of a buy of `side`. */
  function BuyQuote(t: Terms, b: Book, side: Prediction, collateral: int): (int, int, int)
    requires b.totalSupply != 0
  {
    (b.Reserve(side.Other()), b.Reserve(side), ApplyFee(collateral, FeeBps(t, b)))
  }

  function SellQuote(t: Terms, b: Book, side: Prediction, shares: int): (int, int, int)
    requires b.totalSupply != 0
  {
    (b.Reserve(side), b.Reserve(side.Other()), ApplyFee(shares, FeeBps(t, b)))
  }

  /** Implied probabilities of the two sides in basis points. */
  function PriceBps(b: Book): Result<(int, int)> {
    var total := b.poolYes + b.poolNo;
    if total == 0 then
      Err(ArithmeticTrap)
    else
      var yes := TruncDiv(b.poolNo * FULL_BPS, total) % U32;
      Ok((yes, FULL_BPS - yes))
  }

  // ----- handlers

  function Split(t: Terms, open: bool, b: Book, user: Address, amount: int): Outcome {
    if user == t.self then Err(AuthTrap)
    else if !open then Err(MarketNotOpen)
    else if amount <= 0 then Err(InvalidAmount)
    else if !b.CanPay(user, amount) then Err(TokenTrap)
    else Ok((Minted(t.self, b, user, amount), 0))
  }

  function Merge(t: Terms, open: bool, b: Book, user: Address, amount: int): Outcome {
    if user == t.self then Err(AuthTrap)
    else if !open then Err(MarketNotOpen)
    else if amount <= 0 then Err(InvalidAmount)
    else if b.Bal(Yes, user) < amount || b.Bal(No, user) < amount then Err(InsufficientBalance)
    else if !b.CanPay(t.self, amount) then Err(TokenTrap)
    else Ok((Burned(t.self, b, user, amount), 0))
  }

  function Buy(t: Terms, open: bool, b: Book, user: Address, side: Prediction, collateral: int, minSharesOut: int)
    : Outcome
  {
    if user == t.self then Err(AuthTrap)
    else if !open then Err(MarketNotOpen)
    else if collateral <= 0 then Err(InvalidAmount)
    else if b.totalSupply == 0 then Err(ArithmeticTrap)
    else
      var (rin, rout, eff) := BuyQuote(t, b, side, collateral);
      if rin + eff == 0 then Err(ArithmeticTrap)
      else
        var out := CpmmOut(rin, rout, eff);
        if 2 * out >= rout then Err(PoolDepthExceeded)
        else if out < minSharesOut then Err(SlippageExceeded)
        else if !b.CanPay(user, collateral) then Err(TokenTrap)
        else if b.Bal(side.Other(), user) < 0 then Err(InsufficientBalance)
        else Ok((Bought(t.self, b, user, side, collateral, out), collateral + out))
  }

  function Sell(t: Terms, open: bool, b: Book, user: Address, side: Prediction, shares: int, minCollateralOut: int)
    : Outcome
  {
    if user == t.self then Err(AuthTrap)
    else if !open then Err(MarketNotOpen)
    else if shares <= 0 then Err(InvalidAmount)
    else if b.Bal(side, user) < shares then Err(InsufficientBalance)
    else if b.totalSupply == 0 then Err(ArithmeticTrap)
    else
      var (rin, rout, eff) := SellQuote(t, b, side, shares);
      var paid := CpmmSellOut(rin, rout, eff);
      if 2 * paid >= rout then Err(PoolDepthExceeded)
      else if paid <= 0 || paid < minCollateralOut then Err(SlippageExceeded)
      else if !b.CanPay(t.self, paid) then Err(TokenTrap)
      else Ok((Sold(t.self, b, user, side, shares, paid), paid))
  }

  function Transfer(t: Terms, b: Book, from: Address, to: Address, side: Prediction, amount: int): Outcome {
    if from == t.self then Err(AuthTrap)
    else if amount <= 0 then Err(InvalidAmount)
    else if b.Bal(side, from) < amount then Err(InsufficientBalance)
    else Ok((b.WithShares(side, Move(b.Shares(side), from, to, amount)), 0))
  }

  /** Paying out a position whose worth was already determined. */
  function Redeem(t: Terms, b: Book, user: Address, paid: int): Outcome {
    if paid <= 0 then Err(NothingToRedeem)
    else if !b.CanPay(t.self, paid) then Err(TokenTrap)
    else Ok((Redeemed(t.self, b, user, paid), paid))
  }

  /** Anyone but the contract may move their own collateral tokens. */
  function TokenTransfer(t: Terms, b: Book, from: Address, to: Address, amount: int): Outcome {
    if from == t.self then Err(AuthTrap)
    else if !b.CanPay(from, amount) then Err(TokenTrap)
    else Ok((b.Pay(from, to, amount), 0))
  }
}
