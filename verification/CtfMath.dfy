/** The shared pricing formulas: constant-product swap, direct sell, fees and the fee curve.
    Everything is over mathematical integers; FixedWidth relates it to 128-bit arithmetic. */
module CtfMath {
  import opened Arithmetic

  const MAX_FEE_BPS := 1_000
  const FULL_BPS := 10_000
  const U32 := 0x1_0000_0000

  /** Shares paid out for `effectiveIn` shares swapped into the pool. */
  function CpmmOut(reserveIn: int, reserveOut: int, effectiveIn: int): int
    requires reserveIn + effectiveIn != 0
  {
    reserveOut - TruncDiv(reserveIn * reserveOut, reserveIn + effectiveIn)
  }

  /** Collateral paid for `effectiveIn` shares sold straight to collateral. */
  function CpmmSellOut(reserveIn: int, reserveOut: int, effectiveIn: int): int {
    var s := reserveIn + effectiveIn + reserveOut;
    TruncDiv(s - FloorSqrt(Max(Discriminant(reserveIn, reserveOut, effectiveIn), 0)), 2)
  }

  function Discriminant(reserveIn: int, reserveOut: int, effectiveIn: int): int {
    var s := reserveIn + effectiveIn + reserveOut;
    s * s - 4 * (effectiveIn * reserveOut)
  }

  function ApplyFee(amount: int, feeBps: nat): int {
    amount - TruncDiv(amount * feeBps, FULL_BPS)
  }

  /** The fee curve; the final cast to 32 bits keeps the low 32 bits. */
  function EffectiveFeeBps(base: nat, min: nat, initialLiquidity: int, totalSupply: int): (fee: nat)
    requires totalSupply != 0
    ensures fee < U32
  {
    (min + TruncDiv((base - min) * initialLiquidity, totalSupply)) % U32
  }

  // ----- fees

  /** The fee is the floor of the amount's share, so it can be zero; it never exceeds the amount
      unless the rate exceeds the whole. */
  lemma ApplyFeeBounds(amount: int, feeBps: nat)
    requires 0 <= amount
    ensures ApplyFee(amount, feeBps) <= amount
    ensures feeBps <= FULL_BPS ==> 0 <= ApplyFee(amount, feeBps)
    ensures var fee := amount - ApplyFee(amount, feeBps);
            FULL_BPS * fee <= amount * feeBps < FULL_BPS * (fee + 1)
  {
    MulNonNeg(amount, feeBps);
    if feeBps <= FULL_BPS {
      MulMono(feeBps, FULL_BPS, amount);
    }
  }

  /** The curve stays in its configured band while the supply has not fallen below the seed, and
      below the whole amount while it has not fallen below a tenth of it. */
  lemma FeeInBand(base: nat, min: nat, initial: int, supply: int)
    requires min <= base <= MAX_FEE_BPS
    requires 1 <= initial && 1 <= supply
    ensures initial <= supply ==> min <= EffectiveFeeBps(base, min, initial, supply) <= base
    ensures initial <= 10 * supply ==> min <= EffectiveFeeBps(base, min, initial, supply) <= FULL_BPS
    ensures initial == supply ==> EffectiveFeeBps(base, min, initial, supply) == base
  {
    hide EffectiveFeeBps;
    if initial <= 10 * supply {
      FeeIs(base, min, initial, supply);
    }
    var d := base - min;
    if initial <= supply {
      QuotientAtMost(d, initial, supply, 1);
    }
    if initial == supply {
      DivIs(d * initial, supply, d);
    }
  }

  /** While ten times the supply covers the seed, the curve is the plain formula. */
  lemma FeeIs(base: nat, min: nat, initial: int, supply: int)
    requires min <= base <= MAX_FEE_BPS
    requires 1 <= initial <= 10 * supply
    ensures EffectiveFeeBps(base, min, initial, supply) == min + (base - min) * initial / supply
    ensures 0 <= (base - min) * initial / supply <= 10 * (base - min)
    ensures (base - min) * initial >= 0
  {
    QuotientAtMost(base - min, initial, supply, 10);
  }

  lemma QuotientAtMost(d: nat, initial: int, supply: int, times: nat)
    requires 1 <= initial <= times * supply && 1 <= supply
    ensures d * initial >= 0
    ensures 0 <= d * initial / supply <= d * times
  {
    MulNonNeg(d, initial);
    MulMono(initial, times * supply, d);
    assert d * (times * supply) == d * times * supply;
    var n := d * initial;
    DivBounds(n, supply);
    if n / supply > d * times {
      MulMono(d * times + 1, n / supply, supply);
    }
  }

  /** More collateral locked does not raise the fee exactly when the curve falls by at least as
      much as the multiples of 2^32 that the cast no longer takes off. */
  lemma FeeFallsIff(base: nat, min: nat, initial: int, supply: int, larger: int)
    requires min <= base && 1 <= initial && 1 <= supply <= larger
    ensures var high := min + (base - min) * initial / supply;
            var low := min + (base - min) * initial / larger;
            && low <= high
            && (EffectiveFeeBps(base, min, initial, larger) <= EffectiveFeeBps(base, min, initial, supply) <==>
                  (high / U32 - low / U32) * U32 <= high - low)
  {
    MulNonNeg(base - min, initial);
    DivBounds((base - min) * initial, larger);
    QuotientFalls((base - min) * initial, supply, larger);
  }

  /** In particular whenever the curve at the smaller supply fits in 32 bits. */
  lemma FeeFallsWithSupply(base: nat, min: nat, initial: int, supply: int, larger: int)
    requires min <= base && 1 <= initial && 1 <= supply <= larger
    requires min + (base - min) * initial / supply < U32
    ensures EffectiveFeeBps(base, min, initial, larger) <= EffectiveFeeBps(base, min, initial, supply)
  {
    hide EffectiveFeeBps;
    FeeFallsIff(base, min, initial, supply, larger);
    MulNonNeg(base - min, initial);
    DivBounds((base - min) * initial, larger);
    DivBounds((base - min) * initial, supply);
  }

  /** Beyond that the cast can make the fee jump: at a supply of two units against a seed of
      8589935 it is 2.04 percent, at three units 286331 times the whole. */
  lemma CastRaisesFee()
    ensures EffectiveFeeBps(1_000, 0, 8_589_935, 2) == 204
    ensures EffectiveFeeBps(1_000, 0, 8_589_935, 3) == 2_863_311_666
  {
  }

  // ----- the swap

  /** The payout is the ceiling of reserveOut*effectiveIn/(reserveIn+effectiveIn): flooring
      the new reserve rounds the amount out up. */
  lemma CpmmOutIsCeiling(rin: int, rout: int, eff: int)
    requires 0 <= rin && 0 <= rout && 1 <= rin + eff
    ensures var out := CpmmOut(rin, rout, eff);
            (rin + eff) * (out - 1) < rout * eff <= (rin + eff) * out
  {
    MulNonNeg(rin, rout);
    var n := rin + eff;
    var q := rin * rout / n;
    DivBounds(rin * rout, n);
    assert n * (rout - q) == n * rout - q * n;
    assert n * rout == rin * rout + rout * eff;
    assert n * (rout - q - 1) == n * rout - (q + 1) * n;
  }

  lemma CpmmOutMonotone(rin: int, rout: int, eff: int, more: int)
    requires 0 <= rin && 0 <= rout && 1 <= rin + eff && eff <= more
    ensures CpmmOut(rin, rout, eff) <= CpmmOut(rin, rout, more)
  {
    MulNonNeg(rin, rout);
    QuotientFalls(rin * rout, rin + eff, rin + more);
  }

  lemma QuotientFalls(k: nat, n: int, m: int)
    requires 1 <= n <= m
    ensures k / m <= k / n
  {
    DivBounds(k, n);
    DivBounds(k, m);
    if k / n < k / m {
      MulMono(k / n + 1, k / m, m);
      MulMono(n, m, k / n + 1);
    }
  }

  /** What the pool keeps of the product: all of it up to the remainder of the division,
      plus the withheld fee times the new reserve. */
  lemma CpmmOutProduct(rin: int, rout: int, eff: int, fee: int)
    requires 1 <= rin && 1 <= rout && 1 <= rin + eff
    ensures var k, out := rin * rout, CpmmOut(rin, rout, eff);
            && (rin + eff + fee) * (rout - out) == k - k % (rin + eff) + fee * (rout - out)
            && (k <= (rin + eff + fee) * (rout - out) <==> k % (rin + eff) <= fee * (rout - out))
  {
    MulNonNeg(rin, rout);
    var k, n := rin * rout, rin + eff;
    var q := k / n;
    assert k == q * n + k % n;
    assert (n + fee) * q == q * n + fee * q;
  }

  /** With a non-negative input the swap pays out between nothing and the whole reserve. */
  lemma CpmmOutSign(rin: int, rout: int, eff: int)
    requires 1 <= rin && 1 <= rout && 0 <= eff
    ensures 0 <= CpmmOut(rin, rout, eff) <= rout
  {
    CpmmOutIsCeiling(rin, rout, eff);
    var out := CpmmOut(rin, rout, eff);
    MulNonNeg(rout, eff);
    if out < 0 {
      MulMono(out, -1, rin + eff);
    }
  }

  /** A lower bound on the output, read off the quote without dividing. */
  lemma OutAtLeast(rin: int, rout: int, eff: int, b: int)
    requires 0 <= rin && 0 <= rout && 1 <= rin + eff
    ensures -b <= CpmmOut(rin, rout, eff) <==> -(rin + eff) * (b + 1) < rout * eff
  {
    hide CpmmOut;
    CpmmOutIsCeiling(rin, rout, eff);
    var n, out := rin + eff, CpmmOut(rin, rout, eff);
    assert -n * (b + 1) == n * (-b - 1);
    if -b <= out {
      MulMono(-b - 1, out - 1, n);
    } else {
      MulMono(out, -b - 1, n);
    }
  }

  /** The depth guard also rejects every input that would push the reserve below zero. */
  lemma GuardedInputPositive(rin: int, rout: int, eff: int)
    requires 1 <= rin && 1 <= rout && rin + eff != 0
    requires 2 * CpmmOut(rin, rout, eff) < rout
    ensures 1 <= rin + eff
  {
    MulNonNeg(rin, rout);
  }

  /** A fee of at least twice the input-side reserve over the output-side reserve always
      covers the rounding of a swap that passes the depth guard. */
  lemma LargeFeeCoversSwap(rin: int, rout: int, eff: int, fee: int)
    requires 1 <= rin && 1 <= rout && 1 <= rin + eff && 0 <= fee
    requires 2 * CpmmOut(rin, rout, eff) < rout
    requires 2 * (rin + eff) <= fee * rout
    ensures rin * rout <= (rin + eff + fee) * (rout - CpmmOut(rin, rout, eff))
  {
    CpmmOutProduct(rin, rout, eff, fee);
    var left := rout - CpmmOut(rin, rout, eff);
    MulMono(rout, 2 * left, fee);
    assert fee * (2 * left) == 2 * (fee * left);
  }

  // ----- the direct sell

  /** Twice the distance of `y` from the vertex, squared, against the discriminant: the sign
      of the product change when `y` is paid out. */
  lemma SellIdentity(rin: int, rout: int, eff: int, y: int)
    ensures var t := rin + eff + rout - 2 * y;
            4 * ((rin + eff - y) * (rout - y) - rin * rout) == Square(t) - Discriminant(rin, rout, eff)
  {
    var a, b := rin + eff - y, rout - y;
    assert (a + b) * (a + b) - (a - b) * (a - b) == 4 * (a * b);
    var s, p := rin + eff + rout, eff * rout;
    DiscriminantIsSum(rin, rout, eff);
    assert a - b == rin + eff - rout;
    assert a + b == s - 2 * y;
  }

  lemma DiscriminantIsSum(rin: int, rout: int, eff: int)
    ensures Discriminant(rin, rout, eff) == (rin + eff - rout) * (rin + eff - rout) + 4 * (rin * rout)
  {
    var u := rin + eff;
    assert (u + rout) * (u + rout) - (u - rout) * (u - rout) == 4 * (u * rout);
    assert u * rout == rin * rout + eff * rout;
  }

  /** Any payout that would not raise the product bounds the actual payout. */
  lemma SellOutAtMost(rin: int, rout: int, eff: int, y: int)
    requires 0 <= Discriminant(rin, rout, eff)
    requires (rin + eff - y) * (rout - y) <= rin * rout
    ensures CpmmSellOut(rin, rout, eff) <= y
  {
    hide Discriminant, Square, FloorSqrt;
    SellIdentity(rin, rout, eff, y);
    BelowSqrt(Discriminant(rin, rout, eff), rin + eff + rout - 2 * y);
  }

  /** An upper bound on the payout, read off the quote without a root: `t` is the sum left over
      once twice the bound is taken off, up to parity. */
  lemma SellOutBoundIff(rin: int, rout: int, eff: int, y: int)
    requires 1 <= rin && 1 <= rout && 0 <= eff
    ensures var t := rin + eff + rout - 2 * y - 1;
            CpmmSellOut(rin, rout, eff) <= y <==> t <= 0 || Square(t) <= Discriminant(rin, rout, eff)
  {
    hide Discriminant, FloorSqrt, CpmmSellOut, Square;
    SellOutRange(rin, rout, eff);
    BelowSqrt(Discriminant(rin, rout, eff), rin + eff + rout - 2 * y - 1);
  }

  ghost predicate NearestRoot(rin: int, rout: int, eff: int, x: int) {
    var t := rin + eff + rout - 2 * x;
    Square(t - 1) <= Discriminant(rin, rout, eff) < Square(t + 1)
  }

  /** The payout solves its quadratic to within half a unit, stays inside both the shares
      sold and the reserve, and the clamp of the discriminant at zero never acts. */
  lemma SellOutSolves(rin: int, rout: int, eff: int)
    requires 1 <= rin && 1 <= rout && 0 <= eff
    ensures 0 < Discriminant(rin, rout, eff)
    ensures 0 <= CpmmSellOut(rin, rout, eff) <= eff
    ensures CpmmSellOut(rin, rout, eff) <= rout
    ensures NearestRoot(rin, rout, eff, CpmmSellOut(rin, rout, eff))
    ensures var x, q := CpmmSellOut(rin, rout, eff), FloorSqrt(Discriminant(rin, rout, eff));
            -(2 * q + 1) < 4 * ((rin + eff - x) * (rout - x) - rin * rout) <= 2 * q + 1
  {
    hide Discriminant, FloorSqrt, CpmmSellOut, Square;
    SellOutRange(rin, rout, eff);
    var x := CpmmSellOut(rin, rout, eff);
    SellIdentity(rin, rout, eff, x);
    HalfRoot(rin + eff + rout, Discriminant(rin, rout, eff), x);
  }

  lemma SellOutRange(rin: int, rout: int, eff: int)
    requires 1 <= rin && 1 <= rout && 0 <= eff
    ensures 0 < Discriminant(rin, rout, eff)
    ensures FloorSqrt(Discriminant(rin, rout, eff)) <= rin + eff + rout
    ensures CpmmSellOut(rin, rout, eff) == (rin + eff + rout - FloorSqrt(Discriminant(rin, rout, eff))) / 2
    ensures 0 <= CpmmSellOut(rin, rout, eff) <= eff
    ensures CpmmSellOut(rin, rout, eff) <= rout
  {
    hide Discriminant, FloorSqrt;
    DiscriminantPositive(rin, rout, eff);
    assert (rin + eff - eff) * (rout - eff) <= rin * rout by {
      MulMono(rout - eff, rout, rin);
    }
    SellOutAtMost(rin, rout, eff, eff);
    SellOutAtMost(rin, rout, eff, rout);
  }

  lemma DiscriminantPositive(rin: int, rout: int, eff: int)
    requires 1 <= rin && 1 <= rout && 0 <= eff
    ensures 0 < Discriminant(rin, rout, eff)
    ensures FloorSqrt(Discriminant(rin, rout, eff)) <= rin + eff + rout
  {
    hide *;
    DiscriminantAtMost(rin, rout, eff);
    DiscriminantIsSum(rin, rout, eff);
    MulMono(1, rin, rout);
    SquareNonNeg(rin + eff - rout);
    var d := Discriminant(rin, rout, eff);
    FloorSqrtBounds(d);
    SquareReflects(FloorSqrt(d), rin + eff + rout);
  }

  lemma DiscriminantAtMost(rin: int, rout: int, eff: int)
    requires 0 <= rout && 0 <= eff
    ensures Discriminant(rin, rout, eff) <= (rin + eff + rout) * (rin + eff + rout)
  {
    MulNonNeg(eff, rout);
  }

  lemma HalfRoot(s: nat, d: nat, x: int)
    requires 0 < d && FloorSqrt(d) <= s
    requires x == (s - FloorSqrt(d)) / 2
    ensures var t, q := s - 2 * x, FloorSqrt(d);
            && Square(t - 1) <= d < Square(t + 1)
            && -(2 * q + 1) < Square(t) - d <= 2 * q + 1
  {
    hide FloorSqrt;
    var q := FloorSqrt(d);
    FloorSqrtBounds(d);
    assert Square(q + 1) == q * q + 2 * q + 1;
    assert q > 0;
    SquareMono(q - 1, q);
    SquareMono(q + 1, q + 2);
    assert s - 2 * x == q || s - 2 * x == q + 1;
  }

  /** ... and no other integer does. */
  lemma SellOutIff(rin: int, rout: int, eff: int, x: int)
    requires 1 <= rin && 1 <= rout && 0 <= eff
    ensures NearestRoot(rin, rout, eff, x) <==> x == CpmmSellOut(rin, rout, eff)
  {
    hide Discriminant, FloorSqrt, CpmmSellOut, Square;
    SellOutSolves(rin, rout, eff);
    SellOutRange(rin, rout, eff);
    if NearestRoot(rin, rout, eff, x) {
      NearestIs(Discriminant(rin, rout, eff), rin + eff + rout - 2 * x);
    }
  }

  lemma NearestIs(d: nat, t: int)
    requires Square(t - 1) <= d < Square(t + 1)
    ensures FloorSqrt(d) <= t <= FloorSqrt(d) + 1
  {
    hide FloorSqrt;
    var q := FloorSqrt(d);
    FloorSqrtBounds(d);
    assert Square(t - 1) == Square(t + 1) - 4 * t;
    SquareReflectsStrict(t - 1, q + 1);
    SquareReflectsStrict(q, t + 1);
  }

  lemma SellOutMonotone(rin: int, rout: int, eff: int, more: int)
    requires 1 <= rin && 1 <= rout && 0 <= eff <= more
    ensures CpmmSellOut(rin, rout, eff) <= CpmmSellOut(rin, rout, more)
  {
    hide Discriminant, FloorSqrt, CpmmSellOut, Square;
    SellOutRange(rin, rout, eff);
    SellOutRange(rin, rout, more);
    var y := CpmmSellOut(rin, rout, more);
    SellOutIff(rin, rout, more, y);
    if y < rout {
      LessSoldLessRoot(rin, rout, eff, more, y);
      BelowSqrt(Discriminant(rin, rout, eff), rin + eff + rout - 2 * y - 1);
    }
  }

  lemma LessSoldLessRoot(rin: int, rout: int, eff: int, more: int, y: int)
    requires eff <= more && y < rout
    requires Square(rin + more + rout - 2 * y - 1) <= Discriminant(rin, rout, more)
    ensures Square(rin + eff + rout - 2 * y - 1) <= Discriminant(rin, rout, eff)
  {
    hide Discriminant, Square;
    SellIdentity(rin, rout, eff, y);
    SellIdentity(rin, rout, more, y);
    SquareOfPred(rin + eff + rout - 2 * y);
    SquareOfPred(rin + more + rout - 2 * y);
    Distribute(rin + eff - y, more - eff, rout - y);
    MulMono(1, rout - y, more - eff);
  }

  lemma SquareOfPred(t: int)
    ensures Square(t - 1) == Square(t) - 2 * t + 1
  {
  }

  lemma Distribute(x: int, d: int, z: int)
    ensures (x + d) * z == x * z + d * z
  {
  }

  /** A fee of at least the whole of both sides over the output reserve always covers the
      rounding of a sell that passes the depth guard. */
  lemma LargeFeeCoversSell(rin: int, rout: int, eff: int, fee: int)
    requires 1 <= rin && 1 <= rout && 0 <= eff && 0 <= fee
    requires 2 * CpmmSellOut(rin, rout, eff) < rout
    requires rin + eff + rout <= fee * rout
    ensures var x := CpmmSellOut(rin, rout, eff);
            rin * rout - (rin + eff - x) * (rout - x) <= fee * (rout - x)
  {
    hide CpmmSellOut, Discriminant, FloorSqrt, NearestRoot;
    SellOutRange(rin, rout, eff);
    SellOutSolves(rin, rout, eff);
    var left := rout - CpmmSellOut(rin, rout, eff);
    MulMono(rout, 2 * left, fee);
    DoubleInside(fee, left);
  }

  lemma DoubleInside(x: int, y: int)
    ensures x * (2 * y) == 2 * (x * y)
  {
  }

  /** Nothing is ever paid for a sale whose fee eats the whole amount or more. */
  lemma SellOutNothing(rin: int, rout: int, eff: int)
    requires 1 <= rin && 1 <= rout && eff <= 0
    ensures CpmmSellOut(rin, rout, eff) <= 0
  {
    MulNonNeg(-eff, rout);
    assert (rin + eff - 0) * (rout - 0) <= rin * rout by {
      MulMono(rin + eff, rin, rout);
    }
    assert Discriminant(rin, rout, eff) >= 0 by {
      SquareNonNeg(rin + eff + rout);
      assert (-eff) * rout == -(eff * rout);
    }
    SellOutAtMost(rin, rout, eff, 0);
  }

  // ----- buying and selling back

  /** Buy with `c` (of which `f1` is withheld), then sell everything received (`f2` withheld).
      `a` is the reserve of the unwanted side and `b` that of the bought side. */
  lemma RoundTrip(a: int, b: int, c: int, f1: int, f2: int)
    requires 1 <= a && 1 <= b && 1 <= c && 0 <= f1 <= c
    requires var out := CpmmOut(a, b, c - f1); 2 * out < b && 0 <= f2 <= c + out
    ensures var out := CpmmOut(a, b, c - f1);
            var x := CpmmSellOut(b - out, a + c, c + out - f2);
            && x <= c + 2
            && (a * b <= (b - out) * (a + c) ==> x <= c)
  {
    hide CpmmOut, CpmmSellOut, Discriminant;
    var out := CpmmOut(a, b, c - f1);
    CpmmOutSign(a, b, c - f1);
    RoundTripSlack(a, b, c, f1, out);
    SellBack(a, b, c, b - out, c + out - f2);
  }

  lemma SellBack(a: int, b: int, c: int, left: int, eff: int)
    requires 1 <= a && 1 <= b && 1 <= c && 1 <= left && 0 <= eff && left + eff - c <= b
    requires a * b - 2 * a - 2 * b + 4 <= left * (a + c)
    requires a == 1 ==> left == b
    ensures CpmmSellOut(left, a + c, eff) <= c + 2
    ensures a * b <= left * (a + c) ==> CpmmSellOut(left, a + c, eff) <= c
  {
    hide *;
    DiscriminantPositive(left, a + c, eff);
    if a * b <= left * (a + c) {
      MulMono(left + eff - c, b, a);
      assert a + c - c == a;
      SellOutAtMost(left, a + c, eff, c);
    }
    RoundTripTwoMore(a, b, c, left, eff);
    SellOutAtMost(left, a + c, eff, c + 2);
  }

  lemma RoundTripTwoMore(a: int, b: int, c: int, left: int, eff: int)
    requires 1 <= a && 1 <= b && 1 <= c && 0 <= eff && left + eff - c <= b
    requires a * b - 2 * a - 2 * b + 4 <= left * (a + c)
    requires a == 1 ==> left == b
    ensures (left + eff - (c + 2)) * (a + c - (c + 2)) <= left * (a + c)
  {
    if a >= 2 {
      MulMono(left + eff - (c + 2), b - 2, a - 2);
      assert (b - 2) * (a - 2) == a * b - 2 * a - 2 * b + 4;
    } else {
      MulMono(1, b, c);
      assert b * (1 + c) == b + b * c;
    }
  }

  /** The swap's own loss is less than the input reserve after it, which the depth guard
      keeps below twice the reserve before it. */
  lemma RoundTripSlack(a: int, b: int, c: int, f1: int, out: int)
    requires 1 <= a && 1 <= b && 1 <= c && 0 <= f1 <= c
    requires out == CpmmOut(a, b, c - f1) && 2 * out < b
    ensures a * b - 2 * a - 2 * b + 4 <= (b - out) * (a + c)
    ensures a == 1 ==> out == 0
  {
    hide CpmmOut;
    CpmmOutProduct(a, b, c - f1, 0);
    var n, left, k := a + c - f1, b - out, a * b;
    assert n * left == k - k % n;
    MulMono(b + 1, 2 * left, a);
    assert 2 * a * left == a * (2 * left);
    assert a * (b + 1) == k + a;
    if 2 * a <= n {
      MulMono(2 * a, n, left);
    }
    MulMono(n, a + c, left);
  }

  /** The two units are sometimes needed: a fee-free trip that gains exactly two. */
  lemma RoundTripGainsTwo()
    ensures CpmmOut(1846, 45, 1488) == 21
    ensures CpmmSellOut(45 - 21, 1846 + 1488, 1488 + 21) == 1490
  {
    DivIs(1846 * 45, 1846 + 1488, 24);
    assert NearestRoot(24, 3334, 1509, 1490);
    SellOutIff(24, 3334, 1509, 1490);
  }
}
