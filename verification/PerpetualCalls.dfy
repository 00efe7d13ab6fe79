/** What the perpetual contract's own calls do, told in the fields of the state alone; its trading
    calls are the market's, by Simulation. And where the recorded price of any state comes from. */
module PerpetualCalls {
  import opened Arithmetic
  import opened Calls
  import opened CtfMath
  import opened Ledger
  import opened Oracle
  import opened Perpetual
  import opened Types
  import X = Exchange

  // ----- checkpoints

  /** A checkpoint call that brings a signed price of so many cents, dated around the call, which
      both oracles' own answers stand behind. It depends on no part of the state. */
  ghost predicate Records(cfg: Config, e: Event, cents: int) {
    && e.call.Checkpoint? && cfg.oracle.Some?
    && SignedPrice(e.call.update, cfg.oracle.value.feedId, e.now, cents)
    && Corroborates(cfg.oracle.value.reflector, e.call.reflector, e.now, cents)
    && Corroborates(cfg.oracle.value.redstone, e.call.redstone, e.now, cents)
  }

  ghost predicate Recorded(cfg: Config, e: Event) {
    exists cents :: Records(cfg, e, cents)
  }

  /** A checkpoint succeeds exactly when it records, and writes that price and the time of the call
      and nothing else. */
  lemma CheckpointDoes(p: State, e: Event)
    requires e.call.Checkpoint?
    ensures var r := Exec(p, e);
            && (r.Ok? <==> Recorded(p.cfg, e))
            && (r.Ok? ==>
                  var (q, v) := r.value;
                  && v == 0 && Records(p.cfg, e, q.lastPriceCents) && q.lastPriceAt == e.now
                  && q.cfg == p.cfg && q.status == p.status && q.book == p.book)
  {
    hide FeedCents, Corroborate, SignedPrice, Corroborates;
    if p.cfg.oracle.Some? {
      var oracle := p.cfg.oracle.value;
      var price := FeedCents(e.call.update, oracle.feedId, e.now);
      forall cents ensures SignedPrice(e.call.update, oracle.feedId, e.now, cents) <==> price == Ok(cents) {
        FeedCentsIff(e.call.update, oracle.feedId, e.now, cents);
      }
      if price.Ok? {
        CorroborateIff(oracle.reflector, e.call.reflector, e.now, price.value);
        CorroborateIff(oracle.redstone, e.call.redstone, e.now, price.value);
        assert Records(p.cfg, e, price.value) <==> Exec(p, e).Ok?;
      }
    }
  }

  /** Why a checkpoint is refused: the first thing wrong with it. */
  lemma CheckpointRefusal(p: State, e: Event)
    requires e.call.Checkpoint? && Exec(p, e).Err?
    ensures var error := Exec(p, e).error;
            if p.cfg.oracle.None? then error == PriceOracleNotConfigured
            else
              var oracle := p.cfg.oracle.value;
              var price := FeedCents(e.call.update, oracle.feedId, e.now);
              if price.Err? then error == price.error
              else
                var first := Corroborate(oracle.reflector, e.call.reflector, e.now, price.value);
                var second := Corroborate(oracle.redstone, e.call.redstone, e.now, price.value);
                if first.Some? then
                  && (first.value == Unavailable ==> error == ReflectorPriceUnavailable)
                  && (first.value == Stale ==> error == ReflectorPriceStale)
                  && (first.value == DecimalsInvalid ==> error == ReflectorDecimalsInvalid)
                  && (first.value == DecimalsChanged ==> error == ReflectorDecimalsChanged)
                  && (first.value == Divergent ==> error == OracleDivergence)
                else
                  && second.Some?
                  && (second.value == Unavailable ==> error == RedstonePriceUnavailable)
                  && (second.value == Stale ==> error == RedstonePriceStale)
                  && (second.value == DecimalsInvalid ==> error == RedstoneDecimalsInvalid)
                  && (second.value == DecimalsChanged ==> error == RedstoneDecimalsChanged)
                  && (second.value == Divergent ==> error == OracleDivergence)
  {
    hide FeedCents, Corroborate;
  }

  /** Call `j` is the last of a run that records a price; it recorded `cents` at time `at`. */
  ghost predicate LastRecorded(cfg: Config, es: seq<Event>, j: int, cents: int, at: nat) {
    && 0 <= j < |es| && Records(cfg, es[j], cents) && at == es[j].now
    && forall k :: j < k < |es| ==> !Recorded(cfg, es[k])
  }

  /** The price of every reachable state, terminated or not, is the last one recorded, dated with its
      call, and zero exactly as long as nothing was. */
  lemma {:induction false} RecordedPrice(cfg: Config, tokens: Balances, es: seq<Event>)
    requires Initialize(cfg, tokens).Ok?
    ensures var p := Run(Initialize(cfg, tokens).value, es);
            && p.cfg == cfg
            && if forall k :: 0 <= k < |es| ==> !Recorded(cfg, es[k]) then
                 p.lastPriceCents == 0 && p.lastPriceAt == 0
               else
                 exists j :: LastRecorded(cfg, es, j, p.lastPriceCents, p.lastPriceAt)
    decreases |es|
  {
    hide Exec, Records, Recorded, Initialize;
    StartsUnpriced(cfg, tokens);
    if es != [] {
      var n := |es| - 1;
      var before, e := es[..n], es[n];
      var p := Run(Initialize(cfg, tokens).value, before);
      RecordedPrice(cfg, tokens, before);
      PriceAfter(p, e);
      if Recorded(cfg, e) {
        assert LastRecorded(cfg, es, n, Step(p, e).lastPriceCents, Step(p, e).lastPriceAt);
      } else if exists k :: 0 <= k < n && Recorded(cfg, es[k]) {
        var k :| 0 <= k < n && Recorded(cfg, es[k]);
        assert before[k] == es[k];
        var j :| LastRecorded(cfg, before, j, p.lastPriceCents, p.lastPriceAt);
        assert es[j] == before[j];
        forall k | j < k < |es| ensures !Recorded(cfg, es[k]) {
          assert k < n ==> es[k] == before[k];
        }
        assert LastRecorded(cfg, es, j, p.lastPriceCents, p.lastPriceAt);
      } else {
        forall k | 0 <= k < n ensures !Recorded(cfg, before[k]) {
          assert before[k] == es[k];
        }
      }
    }
  }

  lemma StartsUnpriced(cfg: Config, tokens: Balances)
    requires Initialize(cfg, tokens).Ok?
    ensures var p := Initialize(cfg, tokens).value;
            p.cfg == cfg && p.lastPriceCents == 0 && p.lastPriceAt == 0
  {
  }

  lemma PriceAfter(p: State, e: Event)
    ensures var q := Step(p, e);
            && q.cfg == p.cfg
            && if Recorded(p.cfg, e) then Records(p.cfg, e, q.lastPriceCents) && q.lastPriceAt == e.now
               else q.lastPriceCents == p.lastPriceCents && q.lastPriceAt == p.lastPriceAt
  {
    if e.call.Checkpoint? {
      CheckpointDoes(p, e);
    }
    hide SignedPrice, Corroborates, ExecCheckpoint, X.Split, X.Merge, X.Buy, X.Sell, X.Transfer, X.TokenTransfer,
         X.Closed, X.Redeem;
  }

  // ----- winding down

  /** Only the admin can terminate, and only once; the pools' shares become the treasury's. */
  lemma TerminateDoes(p: State, now: nat, admin: Address)
    ensures var r, b := Exec(p, Event(now, Terminate(admin))), p.book;
            && (r.Ok? <==> admin == p.cfg.admin && admin != p.cfg.self && p.status == Open)
            && (r.Ok? ==>
                  var (q, v) := r.value;
                  && v == 0 && q == p.(status := Terminated, book := q.book)
                  && q.book.tokens == b.tokens && q.book.poolYes == 0 && q.book.poolNo == 0
                  && q.book.totalSupply == b.totalSupply && Held(b, q.book, p.cfg.treasury, b.poolYes, b.poolNo))
            && (r.Err? ==>
                  r.error == if admin != p.cfg.admin then Unauthorized
                             else if admin == p.cfg.self then AuthTrap
                             else AlreadyFinalized)
  {
    hide Get, Set;
    SetOthers(p.book.yes, p.cfg.treasury, Get(p.book.yes, p.cfg.treasury) + p.book.poolYes);
    SetOthers(p.book.no, p.cfg.treasury, Get(p.book.no, p.cfg.treasury) + p.book.poolNo);
  }

  /** Afterwards anybody but the contract is paid half of all shares held, rounded down, if that is
      something and the collateral covers it. */
  lemma RedeemDoes(p: State, now: nat, user: Address)
    ensures var r, b := Exec(p, Event(now, Redeem(user))), p.book;
            var total := Get(b.yes, user) + Get(b.no, user);
            && (r.Ok? <==>
                  user != p.cfg.self && p.status == Terminated && 2 <= total < 2 * Get(b.tokens, p.cfg.self) + 2)
            && (r.Ok? ==>
                  var (q, v) := r.value;
                  && 2 * v <= total < 2 * v + 2 && q == p.(book := q.book)
                  && Paid(b, q.book, p.cfg.self, user, v)
                  && Held(b, q.book, user, -Get(b.yes, user), -Get(b.no, user)) && Pools(b, q.book, 0, 0, -v))
            && (r.Err? ==>
                  r.error == if user == p.cfg.self then AuthTrap
                             else if p.status != Terminated then NotFinalized
                             else if total < 2 then NothingToRedeem
                             else TokenTrap)
  {
    hide Get, X.Redeemed, Paid, Held, Pools;
    RedeemedAt(p.book, p.cfg.self, user, TruncDiv(Get(p.book.yes, user) + Get(p.book.no, user), 2));
  }

  lemma RedeemedAt(b: Book, self: Address, user: Address, v: int)
    ensures var c := X.Redeemed(self, b, user, v);
            && Paid(b, c, self, user, v)
            && Held(b, c, user, -Get(b.yes, user), -Get(b.no, user)) && Pools(b, c, 0, 0, -v)
  {
    hide Get, Set, Move;
    SetOthers(b.yes, user, 0);
    SetOthers(b.no, user, 0);
    MovedAt(b.tokens, self, user, v);
  }

  // ----- initialization

  /** The contract starts exactly when its fees, seed and optional price oracle pass and its admin can
      pay the seed. */
  lemma InitializeDoes(cfg: Config, tokens: Balances)
    ensures var r := Initialize(cfg, tokens);
            && (r.Ok? <==>
                  && cfg.admin != cfg.self && cfg.minFeeBps <= cfg.baseFeeBps <= 1_000
                  && 1 <= cfg.initialLiquidity <= Get(tokens, cfg.admin)
                  && (cfg.oracle.Some? ==>
                        && 1 <= cfg.oracle.value.feedId
                        && LegFits(cfg.oracle.value.reflector) && LegFits(cfg.oracle.value.redstone)))
            && (r.Ok? ==>
                  var p, seed := r.value, cfg.initialLiquidity;
                  && p.cfg == cfg && p.status == Open && p.lastPriceCents == 0 && p.lastPriceAt == 0
                  && p.book.poolYes == seed && p.book.poolNo == seed && p.book.totalSupply == seed
                  && p.book.yes == map[] && p.book.no == map[]
                  && Paid(p.book.(tokens := tokens), p.book, cfg.admin, cfg.self, seed))
            && (r.Err? ==>
                  r.error == if cfg.admin == cfg.self then AuthTrap
                             else if 1_000 < cfg.baseFeeBps || cfg.baseFeeBps < cfg.minFeeBps then InvalidFeeBps
                             else if cfg.initialLiquidity < 1 then InvalidLiquidity
                             else if cfg.oracle.None? then TokenTrap
                             else
                               var oracle := cfg.oracle.value;
                               if oracle.feedId < 1 then InvalidFeedId
                               else if oracle.reflector.maxStaleness < oracle.reflector.resolutionAtInit
                                 then InvalidReflectorConfig
                               else if !LegFits(oracle.reflector) then ReflectorDecimalsInvalid
                               else if oracle.redstone.maxStaleness < oracle.redstone.resolutionAtInit
                                 then InvalidRedstoneConfig
                               else if !LegFits(oracle.redstone) then RedstoneDecimalsInvalid
                               else TokenTrap)
  {
    hide Get, Set, Move;
    MovedAt(tokens, cfg.admin, cfg.self, cfg.initialLiquidity);
  }
}
