/** The perpetual contract as a state machine: no expiry, an admin's terminate in place of
    settle and cancel, and a price checkpoint that only records a price. */
module Perpetual {
  import opened Arithmetic
  import opened CtfMath
  import opened Ledger
  import opened Oracle
  import opened Types
  import X = Exchange

  datatype PriceOracle = PriceOracle(feedId: nat, reflector: Leg, redstone: Leg)

  datatype Config = Config(
    self: Address, admin: Address, treasury: Address,
    baseFeeBps: nat, minFeeBps: nat, initialLiquidity: int,
    oracle: Option<PriceOracle>)

  datatype Status = Open | Terminated

  datatype State = State(cfg: Config, status: Status, lastPriceCents: int, lastPriceAt: nat, book: Book)

  datatype Call =
    | Split(user: Address, amount: int)
    | Merge(user: Address, amount: int)
    | Buy(user: Address, side: Prediction, collateral: int, minSharesOut: int)
    | Sell(user: Address, side: Prediction, shares: int, minCollateralOut: int)
    | Transfer(from: Address, to: Address, side: Prediction, amount: int)
    | Checkpoint(update: Update, reflector: Reading, redstone: Reading)
    | Terminate(admin: Address)
    | Redeem(user: Address)
    | TokenTransfer(from: Address, to: Address, amount: int)

  datatype Event = Event(now: nat, call: Call)

  type Outcome = Result<(State, int)>

  /** Why a price oracle is refused at initialization, if it is. */
  function OracleFault(oracle: PriceOracle): Option<Error> {
    if oracle.feedId == 0 then Some(InvalidFeedId)
    else if !LimitFits(oracle.reflector) then Some(InvalidReflectorConfig)
    else if !DecimalsFit(oracle.reflector.decimalsAtInit) then Some(ReflectorDecimalsInvalid)
    else if !LimitFits(oracle.redstone) then Some(InvalidRedstoneConfig)
    else if !DecimalsFit(oracle.redstone.decimalsAtInit) then Some(RedstoneDecimalsInvalid)
    else None
  }

  function Initialize(cfg: Config, tokens: Balances): Result<State> {
    if cfg.admin == cfg.self then Err(AuthTrap)
    else if cfg.baseFeeBps > MAX_FEE_BPS || cfg.minFeeBps > cfg.baseFeeBps then Err(InvalidFeeBps)
    else if cfg.initialLiquidity <= 0 then Err(InvalidLiquidity)
    else if cfg.oracle.Some? && OracleFault(cfg.oracle.value).Some? then Err(OracleFault(cfg.oracle.value).value)
    else if Get(tokens, cfg.admin) < cfg.initialLiquidity then Err(TokenTrap)
    else
      var seed := cfg.initialLiquidity;
      Ok(State(cfg, Open, 0, 0, Book(seed, seed, seed, map[], map[], Move(tokens, cfg.admin, cfg.self, seed))))
  }

  function TermsOf(cfg: Config): X.Terms {
    X.Terms(cfg.self, cfg.treasury, cfg.baseFeeBps, cfg.minFeeBps, cfg.initialLiquidity)
  }

  /** An outcome on the book as an outcome on the state. */
  function Lift(s: State, r: X.Outcome): Outcome {
    if r.Ok? then Ok((s.(book := r.value.0), r.value.1)) else Err(r.error)
  }

  /** The checkpoint price, once both corroborating oracles agree with it. */
  function CheckpointCents(oracle: PriceOracle, now: nat, update: Update, reflector: Reading, redstone: Reading)
    : Result<int>
  {
    var price := FeedCents(update, oracle.feedId, now);
    if price.Err? then
      price
    else
      var first := Corroborate(oracle.reflector, reflector, now, price.value);
      if first.Some? then
        Err(ReflectorError(first.value))
      else
        var second := Corroborate(oracle.redstone, redstone, now, price.value);
        if second.Some? then Err(RedstoneError(second.value)) else price
  }

  function ExecCheckpoint(s: State, now: nat, update: Update, reflector: Reading, redstone: Reading): Outcome {
    if s.cfg.oracle.None? then
      Err(PriceOracleNotConfigured)
    else
      var cents := CheckpointCents(s.cfg.oracle.value, now, update, reflector, redstone);
      if cents.Err? then Err(cents.error) else Ok((s.(lastPriceCents := cents.value, lastPriceAt := now), 0))
  }

  function ExecTerminate(s: State, admin: Address): Outcome {
    if admin != s.cfg.admin then Err(Unauthorized)
    else if admin == s.cfg.self then Err(AuthTrap)
    else if s.status != Open then Err(AlreadyFinalized)
    else Ok((s.(status := Terminated, book := X.Closed(s.cfg.treasury, s.book)), 0))
  }

  function ExecRedeem(s: State, user: Address): Outcome {
    if user == s.cfg.self then Err(AuthTrap)
    else if s.status != Terminated then Err(NotFinalized)
    else Lift(s, X.Redeem(TermsOf(s.cfg), s.book, user, TruncDiv(s.book.Total(user), 2)))
  }

  function Exec(s: State, e: Event): Outcome {
    match e.call
    case Split(user, amount) => Lift(s, X.Split(TermsOf(s.cfg), s.status == Open, s.book, user, amount))
    case Merge(user, amount) => Lift(s, X.Merge(TermsOf(s.cfg), s.status == Open, s.book, user, amount))
    case Buy(user, side, collateral, min) =>
      Lift(s, X.Buy(TermsOf(s.cfg), s.status == Open, s.book, user, side, collateral, min))
    case Sell(user, side, shares, min) =>
      Lift(s, X.Sell(TermsOf(s.cfg), s.status == Open, s.book, user, side, shares, min))
    case Transfer(from, to, side, amount) => Lift(s, X.Transfer(TermsOf(s.cfg), s.book, from, to, side, amount))
    case Checkpoint(update, reflector, redstone) => ExecCheckpoint(s, e.now, update, reflector, redstone)
    case Terminate(admin) => ExecTerminate(s, admin)
    case Redeem(user) => ExecRedeem(s, user)
    case TokenTransfer(from, to, amount) => Lift(s, X.TokenTransfer(TermsOf(s.cfg), s.book, from, to, amount))
  }

  function Step(s: State, e: Event): State {
    var r := Exec(s, e);
    if r.Ok? then r.value.0 else s
  }

  function Run(s: State, es: seq<Event>): State {
    if es == [] then s else Step(Run(s, es[..|es| - 1]), es[|es| - 1])
  }

  /** The values that the successful calls of a run return, checkpoints aside. */
  function Returns(s: State, es: seq<Event>): seq<int> {
    if es == [] then []
    else
      var before := es[..|es| - 1];
      var r := Exec(Run(s, before), es[|es| - 1]);
      Returns(s, before) + if r.Ok? && !es[|es| - 1].call.Checkpoint? then [r.value.1] else []
  }

  function PriceBps(s: State): Result<(int, int)> {
    if s.status != Open then Err(MarketNotOpen) else X.PriceBps(s.book)
  }
}
