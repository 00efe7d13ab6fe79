/** Price conversion and the corroboration of a verified price by a second oracle. */
module Oracle {
  import opened Arithmetic
  import opened Types

  const FRESHNESS_SECS := 300
  const MICROS_PER_SEC := 1_000_000

  /** One corroborating oracle: how old its price may be, how far off, and the number of decimals
      and the seconds between updates that it reported when the market was created. */
  datatype Leg = Leg(maxStaleness: nat, toleranceBps: nat, decimalsAtInit: nat, resolutionAtInit: nat)

  /** An age limit that the oracle's own update rhythm can meet. */
  predicate LimitFits(leg: Leg) {
    leg.resolutionAtInit <= leg.maxStaleness
  }

  predicate DecimalsFit(decimals: nat) {
    2 <= decimals <= 30
  }

  datatype PriceData = PriceData(price: int, timestamp: nat)

  /** What a corroborating oracle answers at call time. */
  datatype Reading = Reading(last: Option<PriceData>, decimals: nat)

  datatype CheckError = Unavailable | Stale | DecimalsInvalid | DecimalsChanged | Divergent

  datatype Feed = Feed(feedId: nat, price: Option<int>, exponent: Option<int>, updateMicros: Option<nat>)

  /** The signed price update, after its signature was checked. */
  datatype Update = Rejected | Verified(feeds: seq<Feed>, micros: nat)

  predicate Fits128(x: int) {
    -0x8000_0000_0000_0000_0000_0000_0000_0000 <= x < 0x8000_0000_0000_0000_0000_0000_0000_0000
  }

  /** A signed price in whole cents; the power or the product can leave 128 bits. */
  function ToCents(price: int, exponent: int): Result<int> {
    var e := exponent + 2;
    var scale := Pow10(Abs(e));
    if !Fits128(scale) then Err(ArithmeticTrap)
    else if e < 0 then Ok(TruncDiv(price, scale))
    else if !Fits128(price * scale) then Err(ArithmeticTrap)
    else Ok(price * scale)
  }

  /** A corroborating price in whole cents, rounded half away from zero. */
  function RoundToCents(price: int, decimals: nat): int
    requires 2 <= decimals
  {
    var divisor := Pow10(decimals - 2);
    var half := divisor / 2;
    if price >= 0 then (price + half) / divisor else -((-price + half) / divisor)
  }

  function DivergenceBps(reference: int, cents: int): int {
    if cents == 0 then 10_000 else Abs(reference - cents) * 10_000 / Abs(cents)
  }

  function Corroborate(leg: Leg, reading: Reading, now: nat, reference: int): Option<CheckError> {
    if reading.last.None? then
      Some(Unavailable)
    else if reading.last.value.timestamp + leg.maxStaleness < now then
      Some(Stale)
    else if !DecimalsFit(reading.decimals) then
      Some(DecimalsInvalid)
    else if reading.decimals != leg.decimalsAtInit then
      Some(DecimalsChanged)
    else if DivergenceBps(reference, RoundToCents(reading.last.value.price, reading.decimals)) > leg.toleranceBps then
      Some(Divergent)
    else
      None
  }

  function ReflectorError(e: CheckError): Error {
    match e
    case Unavailable => ReflectorPriceUnavailable
    case Stale => ReflectorPriceStale
    case DecimalsInvalid => ReflectorDecimalsInvalid
    case DecimalsChanged => ReflectorDecimalsChanged
    case Divergent => OracleDivergence
  }

  function RedstoneError(e: CheckError): Error {
    match e
    case Unavailable => RedstonePriceUnavailable
    case Stale => RedstonePriceStale
    case DecimalsInvalid => RedstoneDecimalsInvalid
    case DecimalsChanged => RedstoneDecimalsChanged
    case Divergent => OracleDivergence
  }

  function FindFeed(feeds: seq<Feed>, id: nat): Option<Feed> {
    if feeds == [] then None
    else if feeds[0].feedId == id then Some(feeds[0])
    else FindFeed(feeds[1..], id)
  }

  /** The configured feed's price in cents, if it is positive and dated within the freshness
      window around `anchor`. */
  function FeedCents(update: Update, feedId: nat, anchor: nat): Result<int> {
    if update.Rejected? then
      Err(InvalidPayload)
    else
      var found := FindFeed(update.feeds, feedId);
      if found.None? then
        Err(FeedNotFound)
      else
        var feed := found.value;
        if feed.price.None? || feed.price.value <= 0 || feed.exponent.None? then
          Err(InvalidPayload)
        else
          var secs := (if feed.updateMicros.Some? then feed.updateMicros.value else update.micros) / MICROS_PER_SEC;
          if secs + FRESHNESS_SECS < anchor then
            Err(StalePrice)
          else if secs > anchor + FRESHNESS_SECS then
            Err(FuturePrice)
          else
            ToCents(feed.price.value, feed.exponent.value)
  }

  // ----- properties

  /** The first feed with the given id, if any. */
  lemma {:induction false} FindFeedFirst(feeds: seq<Feed>, id: nat)
    ensures FindFeed(feeds, id).None? <==> forall i :: 0 <= i < |feeds| ==> feeds[i].feedId != id
    ensures FindFeed(feeds, id).Some? ==>
              exists i :: 0 <= i < |feeds| && feeds[i] == FindFeed(feeds, id).value && feeds[i].feedId == id
                          && forall j :: 0 <= j < i ==> feeds[j].feedId != id
  {
    if feeds != [] && feeds[0].feedId != id {
      FindFeedFirst(feeds[1..], id);
      if FindFeed(feeds, id).Some? {
        var i :| 0 <= i < |feeds[1..]| && feeds[1..][i] == FindFeed(feeds, id).value && feeds[1..][i].feedId == id
                 && forall j :: 0 <= j < i ==> feeds[1..][j].feedId != id;
        assert feeds[i + 1] == FindFeed(feeds, id).value;
        forall j | 0 <= j < i + 1 ensures feeds[j].feedId != id {
          assert j > 0 ==> feeds[j] == feeds[1..][j - 1];
        }
      } else {
        forall i | 0 <= i < |feeds| ensures feeds[i].feedId != id {
          assert i > 0 ==> feeds[i] == feeds[1..][i - 1];
        }
      }
    }
  }

  /** An accepted update carries the configured feed with a positive price dated within the
      freshness window of the anchor, on either side, and the result is that price in cents. */
  lemma FeedCentsIsFresh(update: Update, feedId: nat, anchor: nat)
    requires FeedCents(update, feedId, anchor).Ok?
    ensures update.Verified? && FindFeed(update.feeds, feedId).Some?
    ensures var feed := FindFeed(update.feeds, feedId).value;
            var micros := if feed.updateMicros.Some? then feed.updateMicros.value else update.micros;
            && feed.feedId == feedId && feed.price.Some? && 0 < feed.price.value && feed.exponent.Some?
            && anchor * MICROS_PER_SEC <= micros + FRESHNESS_SECS * MICROS_PER_SEC
            && micros < (anchor + FRESHNESS_SECS + 1) * MICROS_PER_SEC
            && FeedCents(update, feedId, anchor) == ToCents(feed.price.value, feed.exponent.value)
            && 0 <= FeedCents(update, feedId, anchor).value
  {
    hide ToCents, FindFeed;
    var feed := FindFeed(update.feeds, feedId).value;
    FindFeedFirst(update.feeds, feedId);
    ToCentsTruncates(feed.price.value, feed.exponent.value);
  }

  /** Scaling up is exact; scaling down drops the fraction of a cent, so it never grows the
      magnitude nor changes the sign; conversion traps exactly when the power or the product
      does not fit, that is, outside 36 exponents up and 40 down or for too large a product. */
  lemma ToCentsTruncates(price: int, exponent: int)
    ensures var r := ToCents(price, exponent);
            && (r.Ok? <==> -40 <= exponent <= 36 && (-2 <= exponent ==> Fits128(price * Pow10(exponent + 2))))
            && (r.Ok? && -2 <= exponent ==> r.value == price * Pow10(exponent + 2))
            && (r.Ok? && exponent < -2 ==>
                  var unit := Pow10(-exponent - 2);
                  Abs(r.value) * unit <= Abs(price) < (Abs(r.value) + 1) * unit)
            && (r.Ok? && 0 <= price ==> 0 <= r.value)
            && (r.Ok? && price <= 0 ==> r.value <= 0)
  {
    hide Pow10;
    PowerFits(Abs(exponent + 2));
    if -2 <= exponent {
      SignOfProduct(price, Pow10(exponent + 2));
    } else {
      DivBounds(Abs(price), Pow10(-exponent - 2));
    }
  }

  lemma SignOfProduct(x: int, y: int)
    requires 1 <= y
    ensures 0 <= x ==> 0 <= x * y
    ensures x <= 0 ==> x * y <= 0
  {
  }

  lemma PowerFits(n: nat)
    ensures Fits128(Pow10(n)) <==> n <= 38
  {
    TenToThe38();
    if n <= 38 {
      Pow10Mono(n, 38);
    } else {
      Pow10Mono(39, n);
    }
  }

  lemma TenToThe8()
    ensures Pow10(6) == 100_0000 && Pow10(8) == 1_0000_0000
  {
  }

  lemma TenToThe38()
    ensures Pow10(38) == 100_000_000_000_000_000_000_000_000_000_000_000_000
  {
    hide Pow10;
    TenToThe8();
    Pow10Sum(8, 8);
    Pow10Sum(8, 16);
    Pow10Sum(14, 24);
    Pow10Sum(8, 6);
  }

  lemma {:induction false} Pow10Sum(n: nat, m: nat)
    ensures Pow10(n + m) == Pow10(n) * Pow10(m)
  {
    if n > 0 {
      Pow10Sum(n - 1, m);
    }
  }

  lemma {:induction false} Pow10Mono(n: nat, m: nat)
    requires n <= m
    ensures Pow10(n) <= Pow10(m)
    decreases m
  {
    if n < m {
      Pow10Mono(n, m - 1);
    }
  }

  /** Rounding is within half a cent of the raw price. */
  lemma RoundToCentsNearest(price: int, decimals: nat)
    requires 2 <= decimals
    ensures 2 * Abs(RoundToCents(price, decimals) * Pow10(decimals - 2) - price) <= Pow10(decimals - 2)
  {
    hide Pow10;
    var divisor := Pow10(decimals - 2);
    var half := divisor / 2;
    var p: int := Abs(price);
    DivBounds(p + half, divisor);
    var c: int := (p + half) / divisor;
    assert (c + 1) * divisor == c * divisor + divisor;
    assert (-c) * divisor == -(c * divisor);
    if 2 < decimals {
      Pow10Even(decimals - 2);
    }
    assert divisor == 1 || divisor == 2 * half;
  }

  lemma RoundToCentsOdd(price: int, decimals: nat)
    requires 2 <= decimals
    ensures RoundToCents(-price, decimals) == -RoundToCents(price, decimals)
  {
    if price == 0 {
      var divisor := Pow10(decimals - 2);
      DivIs(divisor / 2, divisor, 0);
    }
  }

  lemma RoundToCentsMonotone(price: int, larger: int, decimals: nat)
    requires 2 <= decimals && price <= larger
    ensures RoundToCents(price, decimals) <= RoundToCents(larger, decimals)
  {
    hide Pow10;
    var divisor := Pow10(decimals - 2);
    var half := divisor / 2;
    DivBounds(Abs(price) + half, divisor);
    DivBounds(Abs(larger) + half, divisor);
    if 0 <= price {
      NumeratorGrows(price + half, larger + half, divisor);
    } else if larger < 0 {
      NumeratorGrows(-larger + half, -price + half, divisor);
    }
  }

  lemma NumeratorGrows(x: int, y: int, d: int)
    requires 1 <= d && x <= y
    ensures x / d <= y / d
  {
    DivBounds(x, d);
    DivBounds(y, d);
    if y / d < x / d {
      MulMono(y / d + 1, x / d, d);
    }
  }

  /** The divergence test in exact form: no quotient, no rounding. */
  lemma DivergenceIff(reference: int, cents: int, tolerance: nat)
    requires cents != 0
    ensures DivergenceBps(reference, cents) <= tolerance
            <==> 10_000 * Abs(reference - cents) < (tolerance + 1) * Abs(cents)
  {
    var n, d := Abs(reference - cents) * 10_000, Abs(cents);
    DivBounds(n, d);
    if n / d <= tolerance {
      MulMono(n / d + 1, tolerance + 1, d);
    } else {
      MulMono(tolerance + 1, n / d, d);
    }
  }

  // ----- acceptance in terms of the data alone

  /** `cents` is the raw price in whole cents, half a cent going away from zero. */
  ghost predicate Rounded(price: int, decimals: nat, cents: int)
    requires 2 <= decimals
  {
    var unit := Pow10(decimals - 2);
    if price >= 0 then
      (2 * cents - 1) * unit <= 2 * price < (2 * cents + 1) * unit
    else
      (-2 * cents - 1) * unit <= -2 * price < (-2 * cents + 1) * unit
  }

  /** Off by no more than the tolerance in basis points; a price of no cents counts as entirely off. */
  ghost predicate WithinTolerance(reference: int, cents: int, toleranceBps: nat) {
    if cents == 0 then 10_000 <= toleranceBps
    else 10_000 * Abs(reference - cents) < (toleranceBps + 1) * Abs(cents)
  }

  /** What makes a corroborating oracle agree: an answer not older than its limit, with the decimals
      of initialization, within tolerance. */
  ghost predicate Corroborates(leg: Leg, reading: Reading, now: nat, reference: int) {
    && reading.last.Some? && now <= reading.last.value.timestamp + leg.maxStaleness
    && 2 <= reading.decimals <= 30 && reading.decimals == leg.decimalsAtInit
    && exists cents ::
         Rounded(reading.last.value.price, reading.decimals, cents) &&
         WithinTolerance(reference, cents, leg.toleranceBps)
  }

  ghost predicate FirstFeed(feeds: seq<Feed>, feedId: nat, i: int) {
    0 <= i < |feeds| && feeds[i].feedId == feedId && forall j :: 0 <= j < i ==> feeds[j].feedId != feedId
  }

  ghost predicate Priced(feed: Feed) {
    feed.price.Some? && 0 < feed.price.value && feed.exponent.Some?
  }

  ghost function Dated(update: Update, feed: Feed): nat
    requires update.Verified?
  {
    if feed.updateMicros.Some? then feed.updateMicros.value else update.micros
  }

  /** `price` times ten to the `exponent`, in cents: exact, or without its fraction. */
  ghost predicate Scaled(price: int, exponent: int, cents: int) {
    if -2 <= exponent then
      exponent <= 36 && cents == price * Pow10(exponent + 2) && Fits128(cents)
    else
      -40 <= exponent && cents * Pow10(-exponent - 2) <= price < (cents + 1) * Pow10(-exponent - 2)
  }

  /** The update's first entry for the feed carries a positive price, dated within 300 seconds of
      `anchor` on either side, of so many cents. */
  ghost predicate SignedPrice(update: Update, feedId: nat, anchor: nat, cents: int) {
    && update.Verified?
    && exists i :: FirstFeed(update.feeds, feedId, i)
                   && var feed := update.feeds[i];
                      && Priced(feed) && Scaled(feed.price.value, feed.exponent.value, cents)
                      && (anchor - 300) * 1_000_000 <= Dated(update, feed) < (anchor + 301) * 1_000_000
  }

  lemma RoundToCentsIff(price: int, decimals: nat, cents: int)
    requires 2 <= decimals
    ensures RoundToCents(price, decimals) == cents <==> Rounded(price, decimals, cents)
  {
    hide Pow10;
    if 2 < decimals {
      Pow10Even(decimals - 2);
    }
    var unit := Pow10(decimals - 2);
    if price >= 0 {
      HalvesIff(price, unit, cents);
    } else {
      HalvesIff(-price, unit, -cents);
    }
  }

  lemma HalvesIff(p: nat, unit: int, c: int)
    requires 1 <= unit && (unit == 1 || unit % 2 == 0)
    ensures (p + unit / 2) / unit == c <==> (2 * c - 1) * unit <= 2 * p < (2 * c + 1) * unit
  {
    DivBounds(p + unit / 2, unit);
    assert (2 * c - 1) * unit == 2 * (c * unit) - unit && (2 * c + 1) * unit == 2 * (c * unit) + unit;
    assert (c + 1) * unit == c * unit + unit;
    if c * unit <= p + unit / 2 < (c + 1) * unit {
      DivIs(p + unit / 2, unit, c);
    }
  }

  lemma WithinToleranceIff(reference: int, cents: int, toleranceBps: nat)
    ensures DivergenceBps(reference, cents) <= toleranceBps <==> WithinTolerance(reference, cents, toleranceBps)
  {
    if cents != 0 {
      DivergenceIff(reference, cents, toleranceBps);
    }
  }

  /** An oracle's answer is accepted exactly when it corroborates, and otherwise refused for the
      first thing wrong with it. */
  lemma CorroborateIff(leg: Leg, reading: Reading, now: nat, reference: int)
    ensures var r := Corroborate(leg, reading, now, reference);
            && (r.None? <==> Corroborates(leg, reading, now, reference))
            && (r == Some(Unavailable) <==> reading.last.None?)
            && (r == Some(Stale) <==> reading.last.Some? && reading.last.value.timestamp + leg.maxStaleness < now)
            && (r == Some(DecimalsInvalid) ==> reading.decimals < 2 || 30 < reading.decimals)
            && (r == Some(DecimalsChanged) ==> reading.decimals != leg.decimalsAtInit && 2 <= reading.decimals <= 30)
            && (r == Some(Divergent) ==>
                  && reading.decimals == leg.decimalsAtInit && 2 <= reading.decimals <= 30
                  && forall cents :: Rounded(reading.last.value.price, reading.decimals, cents) ==>
                                       !WithinTolerance(reference, cents, leg.toleranceBps))
  {
    hide RoundToCents, DivergenceBps, Rounded, WithinTolerance;
    if reading.last.Some? && 2 <= reading.decimals {
      var price := reading.last.value.price;
      var own := RoundToCents(price, reading.decimals);
      RoundToCentsIff(price, reading.decimals, own);
      WithinToleranceIff(reference, own, leg.toleranceBps);
      forall cents ensures Rounded(price, reading.decimals, cents) <==> cents == own {
        RoundToCentsIff(price, reading.decimals, cents);
      }
    }
  }

  lemma ScaledIff(price: int, exponent: int, cents: int)
    requires 0 < price
    ensures ToCents(price, exponent) == Ok(cents) <==> Scaled(price, exponent, cents)
    ensures ToCents(price, exponent).Err? ==> ToCents(price, exponent).error == ArithmeticTrap
  {
    hide Pow10;
    ToCentsTruncates(price, exponent);
    if exponent < -2 {
      var unit := Pow10(-exponent - 2);
      if cents * unit <= price < (cents + 1) * unit {
        DivIs(price, unit, cents);
      }
      DivBounds(price, unit);
    }
  }

  lemma FirstFeedFound(feeds: seq<Feed>, feedId: nat, i: int)
    requires FirstFeed(feeds, feedId, i)
    ensures FindFeed(feeds, feedId) == Some(feeds[i])
  {
    hide FindFeed;
    FindFeedFirst(feeds, feedId);
    var k :| 0 <= k < |feeds| && feeds[k] == FindFeed(feeds, feedId).value && feeds[k].feedId == feedId
             && forall j :: 0 <= j < k ==> feeds[j].feedId != feedId;
    OnlyFirst(feeds, feedId, i);
    assert FirstFeed(feeds, feedId, k);
  }

  /** The verdict on the first entry of the feed, by its own data. */
  lemma FeedVerdict(update: Update, feedId: nat, anchor: nat, i: int, cents: int)
    requires update.Verified? && FirstFeed(update.feeds, feedId, i)
    ensures var feed, r := update.feeds[i], FeedCents(update, feedId, anchor);
            var date := Dated(update, feed);
            && (r == Err(InvalidPayload) <==> !Priced(feed))
            && (r == Err(StalePrice) <==> Priced(feed) && date < (anchor - 300) * 1_000_000)
            && (r == Err(FuturePrice) <==> Priced(feed) && (anchor + 301) * 1_000_000 <= date)
            && (r == Ok(cents) <==>
                  && Priced(feed) && Scaled(feed.price.value, feed.exponent.value, cents)
                  && (anchor - 300) * 1_000_000 <= date < (anchor + 301) * 1_000_000)
            && (r.Err? ==> r.error in {InvalidPayload, StalePrice, FuturePrice, ArithmeticTrap})
  {
    hide FindFeed, ToCents, Scaled;
    FirstFeedFound(update.feeds, feedId, i);
    var feed := update.feeds[i];
    if Priced(feed) {
      ScaledIff(feed.price.value, feed.exponent.value, cents);
    }
  }

  /** A signed update gives so many cents exactly when it carries that price, and is refused as
      unknown exactly when it has no entry for the feed. */
  lemma FeedCentsIff(update: Update, feedId: nat, anchor: nat, cents: int)
    ensures FeedCents(update, feedId, anchor) == Ok(cents) <==> SignedPrice(update, feedId, anchor, cents)
    ensures FeedCents(update, feedId, anchor) == Err(FeedNotFound) <==>
            update.Verified? && forall i :: 0 <= i < |update.feeds| ==> update.feeds[i].feedId != feedId
    ensures update.Rejected? ==> FeedCents(update, feedId, anchor) == Err(InvalidPayload)
  {
    hide FindFeed, Scaled, Priced, Dated, ToCents;
    if update.Verified? {
      FindFeedFirst(update.feeds, feedId);
      if FindFeed(update.feeds, feedId).Some? {
        var i :| 0 <= i < |update.feeds| && update.feeds[i] == FindFeed(update.feeds, feedId).value
                 && update.feeds[i].feedId == feedId && forall j :: 0 <= j < i ==> update.feeds[j].feedId != feedId;
        assert FirstFeed(update.feeds, feedId, i);
        FeedVerdict(update, feedId, anchor, i, cents);
        OnlyFirst(update.feeds, feedId, i);
      }
    }
  }

  lemma OnlyFirst(feeds: seq<Feed>, feedId: nat, i: int)
    requires FirstFeed(feeds, feedId, i)
    ensures forall k :: FirstFeed(feeds, feedId, k) ==> k == i
  {
    forall k | FirstFeed(feeds, feedId, k) ensures k == i {
    }
  }
}
