/** The perpetual contract in its own form. Trading is the storage's; its own are initialization,
    the price checkpoint, the admin's termination and the redemption that follows it. */
module PerpetualContract {
  import opened Arithmetic
  import opened CtfMath
  import opened Ledger
  import opened Oracle
  import opened Perpetual
  import opened Storage
  import opened Types
  import X = Exchange

  /** The entrypoint's result and the storage it leaves agree with the transition. */
  ghost predicate Agrees(expected: Outcome, after: State, r: Result<int>) {
    match r
    case Ok(v) => expected == Ok((after, v))
    case Err(e) => expected == Err(e)
  }

  class Contract {
    const cfg: Config
    const desk: Desk
    var status: Status
    var lastPriceCents: int
    var lastPriceAt: nat

    ghost predicate Valid() {
      desk.terms == TermsOf(cfg)
    }

    ghost function View(): State
      reads this, desk
    {
      State(cfg, status, lastPriceCents, lastPriceAt, desk.View())
    }

    constructor (cfg: Config, desk: Desk)
      requires desk.terms == TermsOf(cfg)
      ensures Valid() && this.desk == desk
      ensures View() == State(cfg, Open, 0, 0, desk.View())
    {
      this.cfg, this.desk := cfg, desk;
      status, lastPriceCents, lastPriceAt := Open, 0, 0;
    }

    /** Refuses a second initialization, checks the parameters and both oracles in order, then pulls
        the seed from the admin. `taken` says whether a market is already stored. */
    static method Initialize(taken: bool, cfg: Config, tokens: Balances) returns (r: Result<Contract>)
      ensures taken ==> r == Err(if cfg.admin == cfg.self then AuthTrap else AlreadyInitialized)
      ensures !taken && r.Err? ==> Perpetual.Initialize(cfg, tokens) == Err(r.error)
      ensures r.Ok? ==> fresh(r.value) && fresh(r.value.desk) && r.value.Valid()
                        && Perpetual.Initialize(cfg, tokens) == Ok(r.value.View())
    {
      if cfg.admin == cfg.self {
        return Err(AuthTrap);
      }
      if taken {
        return Err(AlreadyInitialized);
      }
      if cfg.baseFeeBps > MAX_FEE_BPS || cfg.minFeeBps > cfg.baseFeeBps {
        return Err(InvalidFeeBps);
      }
      if cfg.initialLiquidity <= 0 {
        return Err(InvalidLiquidity);
      }
      if cfg.oracle.Some? {
        var oracle := cfg.oracle.value;
        if oracle.feedId == 0 {
          return Err(InvalidFeedId);
        }
        if oracle.reflector.maxStaleness < oracle.reflector.resolutionAtInit {
          return Err(InvalidReflectorConfig);
        }
        if !DecimalsFit(oracle.reflector.decimalsAtInit) {
          return Err(ReflectorDecimalsInvalid);
        }
        if oracle.redstone.maxStaleness < oracle.redstone.resolutionAtInit {
          return Err(InvalidRedstoneConfig);
        }
        if !DecimalsFit(oracle.redstone.decimalsAtInit) {
          return Err(RedstoneDecimalsInvalid);
        }
      }
      var desk := new Desk(TermsOf(cfg), tokens);
      var paid := desk.Seed(cfg.admin, cfg.initialLiquidity);
      if !paid {
        return Err(TokenTrap);
      }
      var c := new Contract(cfg, desk);
      return Ok(c);
    }

    /** Records a corroborated price; nothing else is written. */
    method RecordPriceCheckpoint(now: nat, update: Update, reflector: Reading, redstone: Reading)
      returns (r: Result<int>)
      modifies this`lastPriceCents, this`lastPriceAt
      ensures Agrees(ExecCheckpoint(old(View()), now, update, reflector, redstone), View(), r)
    {
      if cfg.oracle.None? {
        return Err(PriceOracleNotConfigured);
      }
      var oracle := cfg.oracle.value;
      var price := FeedCents(update, oracle.feedId, now);
      if price.Err? {
        return Err(price.error);
      }
      var check := Corroborate(oracle.reflector, reflector, now, price.value);
      if check.Some? {
        return Err(ReflectorError(check.value));
      }
      check := Corroborate(oracle.redstone, redstone, now, price.value);
      if check.Some? {
        return Err(RedstoneError(check.value));
      }
      lastPriceCents := price.value;
      lastPriceAt := now;
      return Ok(0);
    }

    method Terminate(admin: Address) returns (r: Result<int>)
      requires Valid()
      modifies this, desk
      ensures Agrees(ExecTerminate(old(View()), admin), View(), r)
    {
      if cfg.admin != admin {
        return Err(Unauthorized);
      }
      if admin == cfg.self {
        return Err(AuthTrap);
      }
      if status != Open {
        return Err(AlreadyFinalized);
      }
      desk.Close();
      status := Terminated;
      return Ok(0);
    }

    method Redeem(user: Address) returns (r: Result<int>)
      requires Valid()
      modifies desk
      ensures Agrees(ExecRedeem(old(View()), user), View(), r)
    {
      hide TruncDiv, X.Redeem;
      if user == cfg.self {
        return Err(AuthTrap);
      }
      if status != Terminated {
        return Err(NotFinalized);
      }
      var balanceYes := desk.BalanceOf(Yes, user);
      var balanceNo := desk.BalanceOf(No, user);
      r := desk.Redeem(user, TruncDiv(balanceYes + balanceNo, 2));
    }

    // ----- the host

    method Dispatch(e: Event) returns (r: Result<int>)
      requires Valid()
      modifies this, desk
      ensures Agrees(Exec(old(View()), e), View(), r)
    {
      hide ExecCheckpoint, ExecTerminate, ExecRedeem;
      match e.call
      case Split(user, amount) => r := desk.Split(status == Open, user, amount);
      case Merge(user, amount) => r := desk.Merge(status == Open, user, amount);
      case Buy(user, side, collateral, min) => r := desk.Buy(status == Open, user, side, collateral, min);
      case Sell(user, side, shares, min) => r := desk.Sell(status == Open, user, side, shares, min);
      case Transfer(from, to, side, amount) => r := desk.Transfer(from, to, side, amount);
      case Checkpoint(update, reflector, redstone) => r := RecordPriceCheckpoint(e.now, update, reflector, redstone);
      case Terminate(admin) => r := Terminate(admin);
      case Redeem(user) => r := Redeem(user);
      case TokenTransfer(from, to, amount) => r := desk.TokenTransfer(from, to, amount);
    }

    /** One invocation: a call that fails is reverted as a whole. */
    method Invoke(e: Event) returns (r: Result<int>)
      requires Valid()
      modifies this, desk
      ensures View() == Step(old(View()), e)
      ensures r.Ok? <==> Exec(old(View()), e).Ok?
      ensures r.Ok? ==> r.value == Exec(old(View()), e).value.1
      ensures r.Err? ==> Exec(old(View()), e) == Err(r.error)
    {
      hide Exec;
      var status0, price0, at0, book0 := status, lastPriceCents, lastPriceAt, desk.View();
      r := Dispatch(e);
      if r.Err? {
        status, lastPriceCents, lastPriceAt := status0, price0, at0;
        desk.Restore(book0);
      }
    }
  }
}
