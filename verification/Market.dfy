/** The expiring market as a state machine: what each entrypoint does to the whole state when
    it succeeds, and which error it gives when it does not. A failed call changes nothing,
    because the host reverts it. MarketContract is the same contract written imperatively and
    is verified against these functions. */
module Market {
  import opened Arithmetic
  import opened CtfMath
  import opened Ledger
  import opened Oracle
  import opened Types
  import X = Exchange

  /** Fixed at initialization. `self` is the contract's own address. */
  datatype Config = Config(
    self: Address, admin: Address, treasury: Address,
    strikePrice: int, expiry: nat, gracePeriod: nat, feedId: nat,
    baseFeeBps: nat, minFeeBps: nat, initialLiquidity: int,
    reflector: Leg, redstone: Option<Leg>)

  datatype Status = Open | ResolvedYes | ResolvedNo | Cancelled

  datatype State = State(cfg: Config, status: Status, finalPrice: int, book: Book)

  /** One call of the contract, or (TokenTransfer) of the collateral token by somebody else. */
  datatype Call =
    | Split(user: Address, amount: int)
    | Merge(user: Address, amount: int)
    | Buy(user: Address, side: Prediction, collateral: int, minSharesOut: int)
    | Sell(user: Address, side: Prediction, shares: int, minCollateralOut: int)
    | Transfer(from: Address, to: Address, side: Prediction, amount: int)
    | Settle(update: Update, reflector: Reading, redstone: Reading)
    | Cancel
    | Redeem(user: Address)
    | TokenTransfer(from: Address, to: Address, amount: int)

  datatype Event = Event(now: nat, call: Call)

  /** The state after a successful call and the value it returns (0 for unit). */
  type Outcome = Result<(State, int)>

  /** The seeded market, or the first failing check. The admin's collateral is moved in. */
  function Initialize(cfg: Config, now: nat, tokens: Balances): Result<State> {
    if cfg.admin == cfg.self then Err(AuthTrap)
    else if cfg.strikePrice <= 0 then Err(InvalidStrikePrice)
    else if cfg.expiry <= now then Err(InvalidExpiry)
    else if cfg.gracePeriod == 0 then Err(InvalidGracePeriod)
    else if cfg.feedId == 0 then Err(InvalidFeedId)
    else if cfg.baseFeeBps > MAX_FEE_BPS || cfg.minFeeBps > cfg.baseFeeBps then Err(InvalidFeeBps)
    else if cfg.initialLiquidity <= 0 then Err(InvalidLiquidity)
    else if !LimitFits(cfg.reflector) then Err(InvalidReflectorConfig)
    else if !DecimalsFit(cfg.reflector.decimalsAtInit) then Err(ReflectorDecimalsInvalid)
    else if cfg.redstone.Some? && !LimitFits(cfg.redstone.value) then Err(InvalidRedstoneConfig)
    else if cfg.redstone.Some? && !DecimalsFit(cfg.redstone.value.decimalsAtInit) then Err(RedstoneDecimalsInvalid)
    else if Get(tokens, cfg.admin) < cfg.initialLiquidity then Err(TokenTrap)
    else
      var seed := cfg.initialLiquidity;
      Ok(State(cfg, Open, 0, Book(seed, seed, seed, map[], map[], Move(tokens, cfg.admin, cfg.self, seed))))
  }

  function TermsOf(cfg: Config): X.Terms {
    X.Terms(cfg.self, cfg.treasury, cfg.baseFeeBps, cfg.minFeeBps, cfg.initialLiquidity)
  }

  /** An outcome on the book as an outcome on the state. */
  function Lift(s: State, r: X.Outcome): Outcome {
    if r.Ok? then Ok((s.(book := r.value.0), r.value.1)) else Err(r.error)
  }

  function FeeBps(s: State): nat
    requires s.book.totalSupply != 0
  {
    X.FeeBps(TermsOf(s.cfg), s.book)
  }

  function BuyQuote(s: State, side: Prediction, collateral: int): (int, int, int)
    requires s.book.totalSupply != 0
  {
    X.BuyQuote(TermsOf(s.cfg), s.book, side, collateral)
  }

  function SellQuote(s: State, side: Prediction, shares: int): (int, int, int)
    requires s.book.totalSupply != 0
  {
    X.SellQuote(TermsOf(s.cfg), s.book, side, shares)
  }

  function Minted(s: State, user: Address, amount: int): State {
    s.(book := X.Minted(s.cfg.self, s.book, user, amount))
  }

  function Burned(s: State, user: Address, amount: int): State {
    s.(book := X.Burned(s.cfg.self, s.book, user, amount))
  }

  function Bought(s: State, user: Address, side: Prediction, collateral: int, out: int): State {
    s.(book := X.Bought(s.cfg.self, s.book, user, side, collateral, out))
  }

  function Sold(s: State, user: Address, side: Prediction, shares: int, paid: int): State {
    s.(book := X.Sold(s.cfg.self, s.book, user, side, shares, paid))
  }

  function Redeemed(s: State, user: Address, paid: int): State {
    s.(book := X.Redeemed(s.cfg.self, s.book, user, paid))
  }

  /** Both reserves go to the treasury and the market takes its final status. */
  function Closed(s: State, status: Status, finalPrice: int): State {
    State(s.cfg, status, finalPrice, X.Closed(s.cfg.treasury, s.book))
  }

  /** Trading stops at expiry; the caller and the status are looked at first. */
  predicate TradingOver(s: State, now: nat, user: Address) {
    user != s.cfg.self && s.status == Open && now >= s.cfg.expiry
  }

  function ExecBuy(s: State, now: nat, user: Address, side: Prediction, collateral: int, minSharesOut: int): Outcome {
    if TradingOver(s, now, user) then
      Err(TradingClosed)
    else
      Lift(s, X.Buy(TermsOf(s.cfg), s.status == Open, s.book, user, side, collateral, minSharesOut))
  }

  function ExecSell(s: State, now: nat, user: Address, side: Prediction, shares: int, minCollateralOut: int): Outcome {
    if TradingOver(s, now, user) then
      Err(TradingClosed)
    else
      Lift(s, X.Sell(TermsOf(s.cfg), s.status == Open, s.book, user, side, shares, minCollateralOut))
  }

  /** The settlement price in cents once every configured oracle agrees with it. */
  function SettlementCents(cfg: Config, now: nat, update: Update, reflector: Reading, redstone: Reading): Result<int> {
    var price := FeedCents(update, cfg.feedId, cfg.expiry);
    if price.Err? then
      price
    else
      var first := Corroborate(cfg.reflector, reflector, now, price.value);
      if first.Some? then
        Err(ReflectorError(first.value))
      else if cfg.redstone.None? then
        price
      else
        var second := Corroborate(cfg.redstone.value, redstone, now, price.value);
        if second.Some? then Err(RedstoneError(second.value)) else price
  }

  function ExecSettle(s: State, now: nat, update: Update, reflector: Reading, redstone: Reading): Outcome {
    if s.status != Open then Err(AlreadyFinalized)
    else if now < s.cfg.expiry then Err(ExpiryNotReached)
    else
      var cents := SettlementCents(s.cfg, now, update, reflector, redstone);
      if cents.Err? then
        Err(cents.error)
      else
        Ok((Closed(s, if cents.value >= s.cfg.strikePrice then ResolvedYes else ResolvedNo, cents.value), 0))
  }

  function ExecCancel(s: State, now: nat): Outcome {
    if s.status != Open then Err(AlreadyFinalized)
    else if now < s.cfg.expiry + s.cfg.gracePeriod then Err(GracePeriodNotElapsed)
    else Ok((Closed(s, Cancelled, s.finalPrice), 0))
  }

  /** What a holder's position is worth once the market is final. */
  function Payout(s: State, user: Address): int {
    match s.status
    case Open => 0
    case ResolvedYes => s.book.Bal(Yes, user)
    case ResolvedNo => s.book.Bal(No, user)
    case Cancelled => TruncDiv(s.book.Total(user), 2)
  }

  function ExecRedeem(s: State, user: Address): Outcome {
    if user == s.cfg.self then Err(AuthTrap)
    else if s.status == Open then Err(NotFinalized)
    else Lift(s, X.Redeem(TermsOf(s.cfg), s.book, user, Payout(s, user)))
  }

  function Exec(s: State, e: Event): Outcome {
    match e.call
    case Split(user, amount) => Lift(s, X.Split(TermsOf(s.cfg), s.status == Open, s.book, user, amount))
    case Merge(user, amount) => Lift(s, X.Merge(TermsOf(s.cfg), s.status == Open, s.book, user, amount))
    case Buy(user, side, collateral, min) => ExecBuy(s, e.now, user, side, collateral, min)
    case Sell(user, side, shares, min) => ExecSell(s, e.now, user, side, shares, min)
    case Transfer(from, to, side, amount) => Lift(s, X.Transfer(TermsOf(s.cfg), s.book, from, to, side, amount))
    case Settle(update, reflector, redstone) => ExecSettle(s, e.now, update, reflector, redstone)
    case Cancel => ExecCancel(s, e.now)
    case Redeem(user) => ExecRedeem(s, user)
    case TokenTransfer(from, to, amount) => Lift(s, X.TokenTransfer(TermsOf(s.cfg), s.book, from, to, amount))
  }

  function Step(s: State, e: Event): State {
    var r := Exec(s, e);
    if r.Ok? then r.value.0 else s
  }

  function Run(s: State, es: seq<Event>): State {
    if es == [] then s else Step(Run(s, es[..|es| - 1]), es[|es| - 1])
  }

  lemma RunNothing(s: State)
    ensures Run(s, []) == s
  {
  }

  lemma RunSnoc(s: State, es: seq<Event>, e: Event)
    ensures Run(s, es + [e]) == Step(Run(s, es), e)
  {
    hide Step;
    assert (es + [e])[..|es|] == es;
  }

  lemma {:induction false} RunConcat(s: State, es: seq<Event>, more: seq<Event>)
    ensures Run(s, es + more) == Run(Run(s, es), more)
  {
    hide Step;
    if more == [] {
      assert es + more == es;
    } else {
      var n := |more| - 1;
      RunConcat(s, es, more[..n]);
      assert es + more == es + more[..n] + [more[n]];
      RunSnoc(s, es + more[..n], more[n]);
    }
  }

  function PriceBps(s: State): Result<(int, int)> {
    if s.status != Open then Err(MarketNotOpen) else X.PriceBps(s.book)
  }
}
