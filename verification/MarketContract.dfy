/** The market contract in its own form: an object that guards each entrypoint with its clock and
    status and hands trading over to its storage. Each entrypoint is verified against its
    transition in Market. An entrypoint that fails may leave half-written storage behind; Invoke
    is the host, which restores it. */
module MarketContract {
  import opened Arithmetic
  import opened CtfMath
  import opened Ledger
  import opened Market
  import opened Oracle
  import opened Storage
  import opened Types
  import X = Exchange

  /** The entrypoint's result and the storage it leaves agree with the transition. */
  ghost predicate Agrees(expected: Outcome, after: State, r: Result<int>) {
    match r
    case Ok(v) => expected == Ok((after, v))
    case Err(e) => expected == Err(e)
  }

  class Contract {
    const cfg: Config
    const desk: Desk
    var status: Status
    var finalPrice: int

    ghost predicate Valid() {
      desk.terms == TermsOf(cfg)
    }

    ghost function View(): State
      reads this, desk
    {
      State(cfg, status, finalPrice, desk.View())
    }

    constructor (cfg: Config, desk: Desk)
      requires desk.terms == TermsOf(cfg)
      ensures Valid() && this.desk == desk
      ensures View() == State(cfg, Open, 0, desk.View())
    {
      this.cfg, this.desk := cfg, desk;
      status, finalPrice := Open, 0;
    }

    /** Refuses a second initialization, checks the parameters and both oracles in order, then pulls
        the seed from the admin. `taken` says whether a market is already stored. */
    static method Initialize(taken: bool, cfg: Config, now: nat, tokens: Balances) returns (r: Result<Contract>)
      ensures taken ==> r == Err(if cfg.admin == cfg.self then AuthTrap else AlreadyInitialized)
      ensures !taken && r.Err? ==> Market.Initialize(cfg, now, tokens) == Err(r.error)
      ensures r.Ok? ==> fresh(r.value) && fresh(r.value.desk) && r.value.Valid()
                        && Market.Initialize(cfg, now, tokens) == Ok(r.value.View())
    {
      if cfg.admin == cfg.self {
        return Err(AuthTrap);
      }
      if taken {
        return Err(AlreadyInitialized);
      }
      if cfg.strikePrice <= 0 {
        return Err(InvalidStrikePrice);
      }
      if cfg.expiry <= now {
        return Err(InvalidExpiry);
      }
      if cfg.gracePeriod == 0 {
        return Err(InvalidGracePeriod);
      }
      if cfg.feedId == 0 {
        return Err(InvalidFeedId);
      }
      if cfg.baseFeeBps > MAX_FEE_BPS || cfg.minFeeBps > cfg.baseFeeBps {
        return Err(InvalidFeeBps);
      }
      if cfg.initialLiquidity <= 0 {
        return Err(InvalidLiquidity);
      }
      if cfg.reflector.maxStaleness < cfg.reflector.resolutionAtInit {
        return Err(InvalidReflectorConfig);
      }
      if !DecimalsFit(cfg.reflector.decimalsAtInit) {
        return Err(ReflectorDecimalsInvalid);
      }
      if cfg.redstone.Some? {
        if cfg.redstone.value.maxStaleness < cfg.redstone.value.resolutionAtInit {
          return Err(InvalidRedstoneConfig);
        }
        if !DecimalsFit(cfg.redstone.value.decimalsAtInit) {
          return Err(RedstoneDecimalsInvalid);
        }
      }
      var desk := new Desk(TermsOf(cfg), tokens);
      var paid := desk.Seed(cfg.admin, cfg.initialLiquidity);
      if !paid {
        return Err(TokenTrap);
      }
      var c := new Contract(cfg, desk);
      return Ok(c);
    }

    method Buy(now: nat, user: Address, side: Prediction, collateral: int, minSharesOut: int) returns (r: Result<int>)
      requires Valid()
      modifies desk
      ensures Agrees(ExecBuy(old(View()), now, user, side, collateral, minSharesOut), View(), r)
    {
      if user != cfg.self && status == Open && now >= cfg.expiry {
        return Err(TradingClosed);
      }
      r := desk.Buy(status == Open, user, side, collateral, minSharesOut);
    }

    method Sell(now: nat, user: Address, side: Prediction, shares: int, minCollateralOut: int) returns (r: Result<int>)
      requires Valid()
      modifies desk
      ensures Agrees(ExecSell(old(View()), now, user, side, shares, minCollateralOut), View(), r)
    {
      if user != cfg.self && status == Open && now >= cfg.expiry {
        return Err(TradingClosed);
      }
      r := desk.Sell(status == Open, user, side, shares, minCollateralOut);
    }

    method Settle(now: nat, update: Update, reflector: Reading, redstone: Reading) returns (r: Result<int>)
      requires Valid()
      modifies this, desk
      ensures Agrees(ExecSettle(old(View()), now, update, reflector, redstone), View(), r)
    {
      if status != Open {
        return Err(AlreadyFinalized);
      }
      if now < cfg.expiry {
        return Err(ExpiryNotReached);
      }
      var price := FeedCents(update, cfg.feedId, cfg.expiry);
      if price.Err? {
        return Err(price.error);
      }
      var check := Corroborate(cfg.reflector, reflector, now, price.value);
      if check.Some? {
        return Err(ReflectorError(check.value));
      }
      if cfg.redstone.Some? {
        check := Corroborate(cfg.redstone.value, redstone, now, price.value);
        if check.Some? {
          return Err(RedstoneError(check.value));
        }
      }
      finalPrice := price.value;
      status := if price.value >= cfg.strikePrice then ResolvedYes else ResolvedNo;
      desk.Close();
      return Ok(0);
    }

    method Cancel(now: nat) returns (r: Result<int>)
      requires Valid()
      modifies this, desk
      ensures Agrees(ExecCancel(old(View()), now), View(), r)
    {
      if status != Open {
        return Err(AlreadyFinalized);
      }
      if now < cfg.expiry + cfg.gracePeriod {
        return Err(GracePeriodNotElapsed);
      }
      desk.Close();
      status := Cancelled;
      return Ok(0);
    }

    method Redeem(user: Address) returns (r: Result<int>)
      requires Valid()
      modifies desk
      ensures Agrees(ExecRedeem(old(View()), user), View(), r)
    {
      hide TruncDiv, X.Redeem;
      if user == cfg.self {
        return Err(AuthTrap);
      }
      if status == Open {
        return Err(NotFinalized);
      }
      var balanceYes := desk.BalanceOf(Yes, user);
      var balanceNo := desk.BalanceOf(No, user);
      var paid;
      match status {
        case ResolvedYes => paid := balanceYes;
        case ResolvedNo => paid := balanceNo;
        case Cancelled => paid := TruncDiv(balanceYes + balanceNo, 2);
      }
      r := desk.Redeem(user, paid);
    }

    method GetPrice() returns (r: Result<(int, int)>)
      ensures r == PriceBps(View())
    {
      if status != Open {
        return Err(MarketNotOpen);
      }
      r := desk.GetPrice();
    }

    // ----- the host

    method Dispatch(e: Event) returns (r: Result<int>)
      requires Valid()
      modifies this, desk
      ensures Agrees(Exec(old(View()), e), View(), r)
    {
      hide ExecBuy, ExecSell, ExecSettle, ExecCancel, ExecRedeem;
      match e.call
      case Split(user, amount) => r := desk.Split(status == Open, user, amount);
      case Merge(user, amount) => r := desk.Merge(status == Open, user, amount);
      case Buy(user, side, collateral, min) => r := Buy(e.now, user, side, collateral, min);
      case Sell(user, side, shares, min) => r := Sell(e.now, user, side, shares, min);
      case Transfer(from, to, side, amount) => r := desk.Transfer(from, to, side, amount);
      case Settle(update, reflector, redstone) => r := Settle(e.now, update, reflector, redstone);
      case Cancel => r := Cancel(e.now);
      case Redeem(user) => r := Redeem(user);
      case TokenTransfer(from, to, amount) => r := desk.TokenTransfer(from, to, amount);
    }

    /** One invocation: a call that fails is reverted as a whole. */
    method Invoke(e: Event) returns (r: Result<int>)
      requires Valid()
      modifies this, desk
      ensures View() == Step(old(View()), e)
      ensures r.Ok? <==> Exec(old(View()), e).Ok?
      ensures r.Ok? ==> r.value == Exec(old(View()), e).value.1
      ensures r.Err? ==> Exec(old(View()), e) == Err(r.error)
    {
      hide Exec;
      var status0, finalPrice0, book0 := status, finalPrice, desk.View();
      r := Dispatch(e);
      if r.Err? {
        status, finalPrice := status0, finalPrice0;
        desk.Restore(book0);
      }
    }

    /** Any sequence of invocations leaves the storage the state machine reaches. */
    method InvokeAll(es: seq<Event>)
      requires Valid()
      modifies this, desk
      ensures View() == Run(old(View()), es)
    {
      for i := 0 to |es|
        invariant View() == Run(old(View()), es[..i])
      {
        assert es[..i + 1][..i] == es[..i];
        var _ := Invoke(es[i]);
      }
      assert es[..|es|] == es;
    }
  }
}
