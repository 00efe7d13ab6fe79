/** The pricing code in the machine's own arithmetic. Every operation on i128 below is checked by
    the verifier to stay inside 128 bits, so these methods show that, within the stated bounds,
    no intermediate value overflows and the results are those of the unbounded formulas. */
module FixedWidth {
  import opened Arithmetic
  import opened CtfMath
  import opened Ledger
  import opened Market
  import opened Solvency
  import opened Trading
  import opened Types
  import X = Exchange

  newtype i128 = x: int | -0x8000_0000_0000_0000_0000_0000_0000_0000 <= x < 0x8000_0000_0000_0000_0000_0000_0000_0000

  const I128_MAX: i128 := 0x7FFF_FFFF_FFFF_FFFF_FFFF_FFFF_FFFF_FFFF
  const BOUND: int := 0x2000_0000_0000_0000  // 2 to the power 61
  const WIDE: int := 0x1_0000_0000_0000_0000_0000  // 2 to the power 80

  /** The machine's division: truncated, and in range unless the dividend is the least value. */
  function Div128(a: i128, b: i128): (q: i128)
    requires b != 0 && -I128_MAX <= a
    ensures q as int == TruncDiv(a as int, b as int) && Abs(q as int) <= Abs(a as int)
  {
    QuotientShrinks(a as int, b as int);
    TruncDiv(a as int, b as int) as i128
  }

  lemma QuotientShrinks(a: int, b: int)
    requires b != 0
    ensures Abs(TruncDiv(a, b)) <= Abs(a)
  {
    QuotientAtMostDividend(Abs(a), Abs(b));
  }

  ghost function Next(n: int, x: int): int
    requires x != 0
  {
    (x + n / x) / 2
  }

  /** Newton's step never falls below the root, and stops falling exactly at it. */
  lemma NewtonStep(n: int, x: int)
    requires 2 <= n && 1 <= x
    ensures 1 <= Next(n, x) && n < Square(Next(n, x) + 1)
    ensures x <= Next(n, x) ==> Square(x) <= n
  {
    var q := n / x;
    DivBounds(n, x);
    MeanOfFactors(n, x, q);
    if x <= (x + q) / 2 {
      MulMono(x, q, x);
    }
  }

  lemma MeanOfFactors(n: int, x: int, q: int)
    requires 2 <= n && 1 <= x && 0 <= q && n < (q + 1) * x
    ensures n < Square((x + q) / 2 + 1)
    ensures 1 <= (x + q) / 2
  {
    var s, t := x + q + 1, 2 * ((x + q) / 2 + 1);
    assert s * s == (x - (q + 1)) * (x - (q + 1)) + 4 * ((q + 1) * x);
    SquareNonNeg(x - (q + 1));
    SquareMono(s, t);
    assert t * t == 4 * Square((x + q) / 2 + 1);
    assert x == 1 && q == 0 ==> (q + 1) * x == 1;
  }

  /** The square root loop: it terminates, never overflows, and gives the floor of the root.
      (The largest i128 is excluded: there the first addition overflows.) */
  method Isqrt(n: i128) returns (r: i128)
    requires n < I128_MAX
    ensures n < 2 ==> r == n
    ensures 0 <= n ==> r as int == FloorSqrt(n as int)
  {
    hide Square, FloorSqrt, Next;
    if n < 2 {
      SmallRoots();
      return n;
    }
    var x := n;
    var y := (x + 1) / 2;
    StartAtDividend(n as int);
    while y < x
      invariant 1 <= x <= n && 1 <= y <= n
      invariant n as int < Square(x as int + 1)
      invariant y as int == Next(n as int, x as int)
      decreases x
    {
      NewtonStep(n as int, x as int);
      NewtonStep(n as int, y as int);
      x := y;
      y := NewtonNext(n, x);
    }
    NewtonStep(n as int, x as int);
    FloorSqrtIs(n as int, x as int);
    return x;
  }

  /** One iterate; the sum before halving is at most n + 1. */
  method NewtonNext(n: i128, x: i128) returns (y: i128)
    requires 2 <= n < I128_MAX && 1 <= x <= n
    ensures y as int == Next(n as int, x as int) && y <= n
  {
    SumOfFactors(n as int, x as int);
    y := (x + n / x) / 2;
  }

  lemma SumOfFactors(n: int, x: int)
    requires 1 <= x <= n
    ensures 0 <= n / x && x + n / x <= n + 1
  {
    var q := n / x;
    DivBounds(n, x);
    assert q == 0 ==> (q + 1) * x == x;
    assert (x - 1) * (q - 1) == q * x - x - q + 1;
    if 1 <= q {
      MulNonNeg(x - 1, q - 1);
    }
  }

  lemma SmallRoots()
    ensures FloorSqrt(0) == 0 && FloorSqrt(1) == 1
  {
  }

  lemma StartAtDividend(n: int)
    requires 2 <= n
    ensures Next(n, n) == (n + 1) / 2
    ensures n < Square(n + 1)
  {
    DivIs(n, n, 1);
  }

  /** The fee on an amount, which can exceed the amount many times over at a rate of 32 bits. */
  method ApplyFee128(amount: i128, feeBps: i128) returns (eff: i128)
    requires 0 <= amount as int <= BOUND && 0 <= feeBps as int < U32
    ensures eff as int == ApplyFee(amount as int, feeBps as int)
    ensures -WIDE <= eff as int <= amount as int
  {
    MulMono(feeBps as int, U32, amount as int);
    MulNonNeg(amount as int, feeBps as int);
    var fee := Div128(amount * feeBps, 10_000);
    eff := amount - fee;
  }

  /** The fee curve, with every product and sum in range before the cast to 32 bits. */
  method EffectiveFee128(base: i128, min: i128, initial: i128, supply: i128) returns (fee: i128)
    requires 0 <= min <= base && base as int <= MAX_FEE_BPS
    requires 1 <= initial as int <= BOUND && 1 <= supply as int <= BOUND
    ensures 0 <= fee as int < U32
    ensures fee as int == EffectiveFeeBps(base as int, min as int, initial as int, supply as int)
  {
    MulMono((base - min) as int, MAX_FEE_BPS, initial as int);
    MulNonNeg((base - min) as int, initial as int);
    var scaled := min + Div128((base - min) * initial, supply);
    fee := scaled % 0x1_0000_0000;
  }

  /** On an amount of at most the supply, the fee is at most the amount plus a tenth of the seed,
      however small the supply. */
  lemma FeeOnShares(base: nat, min: nat, initial: int, supply: int, amount: int)
    requires min <= base <= MAX_FEE_BPS && 1 <= initial && 1 <= amount <= supply
    ensures -initial <= 10 * ApplyFee(amount, EffectiveFeeBps(base, min, initial, supply))
  {
    var d, fee := base - min, EffectiveFeeBps(base, min, initial, supply);
    MulNonNeg(d, initial);
    CastAtMost(base, min, initial, supply);
    hide EffectiveFeeBps, TruncDiv;
    DivBounds(d * initial, supply);
    var q := d * initial / supply;
    MulMono(amount, supply, q);
    MulMono(fee, min + q, amount);
    MulMono(min, MAX_FEE_BPS, amount);
    MulMono(d, MAX_FEE_BPS, initial);
    assert amount * (min + q) == amount * min + amount * q;
    ApplyFeeBounds(amount, fee);
  }

  lemma CastAtMost(base: nat, min: nat, initial: int, supply: int)
    requires min <= base && 1 <= supply && 0 <= (base - min) * initial
    ensures EffectiveFeeBps(base, min, initial, supply) <= min + (base - min) * initial / supply
  {
  }

  /** The swap, also for a fee beyond the whole amount, whose input is negative: only a zero
      divisor traps. */
  method CpmmOut128(reserveIn: i128, reserveOut: i128, effectiveIn: i128) returns (out: i128)
    requires 1 <= reserveIn as int <= BOUND && 1 <= reserveOut as int <= BOUND
    requires -WIDE <= effectiveIn as int <= BOUND && reserveIn as int + effectiveIn as int != 0
    ensures out as int == CpmmOut(reserveIn as int, reserveOut as int, effectiveIn as int)
    ensures Abs(out as int) <= 2 * BOUND * BOUND
  {
    ProductInRange(reserveIn as int, reserveOut as int);
    var k := reserveIn * reserveOut;
    var newReserveIn := reserveIn + effectiveIn;
    var newReserveOut := Div128(k, newReserveIn);
    out := reserveOut - newReserveOut;
  }

  lemma ProductInRange(x: int, y: int)
    requires 0 <= x <= BOUND && 0 <= y <= BOUND
    ensures 0 <= x * y <= 0x400_0000_0000_0000_0000_0000_0000_0000
  {
    MulNonNeg(x, y);
    MulMono(x, BOUND, y);
    MulMono(y, BOUND, BOUND);
    assert BOUND * BOUND == 0x400_0000_0000_0000_0000_0000_0000_0000;
  }

  lemma QuotientAtMostDividend(a: int, b: int)
    requires 0 <= a && 1 <= b
    ensures 0 <= a / b <= a
  {
    DivBounds(a, b);
    MulMono(1, b, a / b);
  }

  /** The direct sell: the squared sum, four times the product, the discriminant and every
      iterate of its square root are in range, for a negative input as well. */
  method CpmmSellOut128(reserveIn: i128, reserveOut: i128, effectiveIn: i128) returns (x: i128)
    requires 1 <= reserveIn as int <= BOUND && 1 <= reserveOut as int <= BOUND
    requires -BOUND <= effectiveIn as int <= BOUND
    ensures x as int == CpmmSellOut(reserveIn as int, reserveOut as int, effectiveIn as int)
    ensures Abs(x as int) <= 16 * BOUND
  {
    hide FloorSqrt, Discriminant, TruncDiv;
    ghost var rin, rout, eff := reserveIn as int, reserveOut as int, effectiveIn as int;
    DiscriminantIs(rin, rout, eff);
    ProductInRange(Abs(eff), rout);
    AbsProduct(eff, rout);
    var s := reserveIn + effectiveIn + reserveOut;
    SumSquareInRange(s as int);
    var p := effectiveIn * reserveOut;
    var disc := s * s - 4 * p;
    var root := Isqrt(Clamp(disc));
    RootInRange(Clamp(disc) as int);
    x := Div128(s - root, 2);
  }

  lemma AbsProduct(x: int, y: int)
    requires 0 <= y
    ensures Abs(x * y) == Abs(x) * y
  {
    if x >= 0 {
      MulNonNeg(x, y);
    } else {
      MulNonNeg(-x, y);
      assert (-x) * y == -(x * y);
    }
  }

  lemma RootInRange(n: nat)
    requires n <= I128_MAX as int
    ensures FloorSqrt(n) <= 8 * BOUND
  {
    hide FloorSqrt;
    FloorSqrtBounds(n);
    assert (8 * BOUND) * (8 * BOUND) > I128_MAX as int;
    SquareReflectsStrict(FloorSqrt(n), 8 * BOUND);
  }

  function Clamp(d: i128): i128 {
    if d > 0 then d else 0
  }

  lemma DiscriminantIs(rin: int, rout: int, eff: int)
    ensures Discriminant(rin, rout, eff) == (rin + eff + rout) * (rin + eff + rout) - 4 * (eff * rout)
  {
  }

  lemma SumSquareInRange(s: int)
    requires Abs(s) <= 3 * BOUND
    ensures 0 <= s * s <= 0x2400_0000_0000_0000_0000_0000_0000_0000
  {
    SquareMono(Abs(s), 3 * BOUND);
    assert Abs(s) * Abs(s) == s * s;
    assert (3 * BOUND) * (3 * BOUND) == 0x2400_0000_0000_0000_0000_0000_0000_0000;
  }

  // ----- the bounds follow from the supply alone

  /** While open and free of debt, the supply bounds both reserves and every balance. */
  lemma SupplyBoundsEverything(s: State, donated: int, odd: nat, side: Prediction, a: Address)
    requires Backed(s, donated, odd) && NoDebt(s) && s.status == Open && s.book.totalSupply <= BOUND
    ensures 1 <= s.book.totalSupply
    ensures 1 <= s.book.Reserve(side) <= BOUND && 0 <= s.book.Bal(side, a) <= BOUND
  {
    SupplyPositive(s, donated, odd);
    PoolsPositive(s, donated, odd);
    BalanceAtMostSum(s.book.yes, a);
    BalanceAtMostSum(s.book.no, a);
    NonNegativeAt(s.book.yes, a);
    NonNegativeAt(s.book.no, a);
    hide Sum, NonNegative, Get;
  }

  /** The four numbers that a trade writes besides the collateral balances. */
  datatype Written = Written(reserveIn: i128, reserveOut: i128, supply: i128, balance: i128)

  lemma BoughtFields(s: State, user: Address, side: Prediction, collateral: int, out: int)
    ensures var t := Bought(s, user, side, collateral, out).book;
            && t.Reserve(side.Other()) == s.book.Reserve(side.Other()) + collateral
            && t.Reserve(side) == s.book.Reserve(side) - out
            && t.totalSupply == s.book.totalSupply + collateral
            && t.Bal(side, user) == s.book.Bal(side, user) + collateral + out
  {
    hide Move;
    SetOthers(s.book.Shares(side), user, s.book.Bal(side, user) + collateral + out);
  }

  lemma SoldFields(s: State, user: Address, side: Prediction, shares: int, paid: int)
    ensures var t := Sold(s, user, side, shares, paid).book;
            && t.Reserve(side) == s.book.Reserve(side) + shares - paid
            && t.Reserve(side.Other()) == s.book.Reserve(side.Other()) - paid
            && t.totalSupply == s.book.totalSupply - paid
            && t.Bal(side, user) == s.book.Bal(side, user) - shares
  {
    hide Move;
    SetOthers(s.book.Shares(side), user, s.book.Bal(side, user) - shares);
  }

  /** The arithmetic of a buy in 128 bits, from the fee to the numbers written back, in any state
      that keeps the invariants with supply, seed and amount up to 2^61, whatever the fee: a zero
      divisor is the only trap. */
  method Buy128(s: State, user: Address, side: Prediction, collateral: i128, ghost donated: int, ghost odd: nat)
    returns (trap: bool, out: i128, tooDeep: bool, w: Written)
    requires Backed(s, donated, odd) && NoDebt(s) && s.status == Open && s.book.totalSupply <= BOUND
    requires s.cfg.initialLiquidity <= BOUND && 1 <= collateral as int <= BOUND
    ensures s.book.totalSupply != 0
    ensures var (rin, rout, eff) := BuyQuote(s, side, collateral as int);
            && (trap <==> rin + eff == 0)
            && (!trap ==> out as int == CpmmOut(rin, rout, eff) && (tooDeep <==> 2 * CpmmOut(rin, rout, eff) >= rout))
    ensures !trap ==>
              var t := Bought(s, user, side, collateral as int, out as int).book;
              && t.Reserve(side.Other()) == w.reserveIn as int && t.Reserve(side) == w.reserveOut as int
              && t.totalSupply == w.supply as int && t.Bal(side, user) == w.balance as int
  {
    hide NoDebt, Bought, CpmmOut, ApplyFee, EffectiveFeeBps, Sum, Get, Set;
    SupplyBoundsEverything(s, donated, odd, side, user);
    SupplyBoundsEverything(s, donated, odd, side.Other(), user);
    var reserveIn, reserveOut := s.book.Reserve(side.Other()) as i128, s.book.Reserve(side) as i128;
    var supply, balance := s.book.totalSupply as i128, s.book.Bal(side, user) as i128;
    var fee := EffectiveFee128(s.cfg.baseFeeBps as i128, s.cfg.minFeeBps as i128,
                               s.cfg.initialLiquidity as i128, supply);
    var eff := ApplyFee128(collateral, fee);
    trap, out, tooDeep, w := reserveIn + eff == 0, 0, false, Written(0, 0, 0, 0);
    if !trap {
      out := CpmmOut128(reserveIn, reserveOut, eff);
      tooDeep := out * 2 >= reserveOut;
      w := Written(reserveIn + collateral, reserveOut - out, supply + collateral, balance + collateral + out);
      BoughtFields(s, user, side, collateral as int, out as int);
    }
  }

  /** The arithmetic of a sell of held shares, likewise; it never traps. */
  method Sell128(s: State, user: Address, side: Prediction, shares: i128, ghost donated: int, ghost odd: nat)
    returns (paid: i128, tooDeep: bool, w: Written)
    requires Backed(s, donated, odd) && NoDebt(s) && s.status == Open && s.book.totalSupply <= BOUND
    requires s.cfg.initialLiquidity <= BOUND && 1 <= shares as int <= s.book.Bal(side, user)
    ensures s.book.totalSupply != 0
    ensures var (rin, rout, eff) := SellQuote(s, side, shares as int);
            && paid as int == CpmmSellOut(rin, rout, eff)
            && (tooDeep <==> 2 * CpmmSellOut(rin, rout, eff) >= rout)
    ensures var t := Sold(s, user, side, shares as int, paid as int).book;
            && t.Reserve(side) == w.reserveIn as int && t.Reserve(side.Other()) == w.reserveOut as int
            && t.totalSupply == w.supply as int && t.Bal(side, user) == w.balance as int
  {
    hide NoDebt, Sold, CpmmSellOut, ApplyFee, EffectiveFeeBps, Sum, Get, Set;
    SupplyBoundsEverything(s, donated, odd, side, user);
    SupplyBoundsEverything(s, donated, odd, side.Other(), user);
    HeldAtMostSupply(s, donated, odd, side, user);
    var reserveIn, reserveOut := s.book.Reserve(side) as i128, s.book.Reserve(side.Other()) as i128;
    var supply, balance := s.book.totalSupply as i128, s.book.Bal(side, user) as i128;
    var fee := EffectiveFee128(s.cfg.baseFeeBps as i128, s.cfg.minFeeBps as i128,
                               s.cfg.initialLiquidity as i128, supply);
    var eff := ApplyFee128(shares, fee);
    FeeOnShares(s.cfg.baseFeeBps, s.cfg.minFeeBps, s.cfg.initialLiquidity, s.book.totalSupply, shares as int);
    paid := CpmmSellOut128(reserveIn, reserveOut, eff);
    tooDeep := paid * 2 >= reserveOut;
    w := Written(reserveIn + shares - paid, reserveOut - paid, supply - paid, balance - shares);
    SoldFields(s, user, side, shares as int, paid as int);
  }

  lemma HeldAtMostSupply(s: State, donated: int, odd: nat, side: Prediction, a: Address)
    requires Backed(s, donated, odd) && NoDebt(s) && s.status == Open
    ensures s.book.Bal(side, a) <= s.book.totalSupply
  {
    hide Sum, Get, NonNegative;
    BalanceAtMostSum(s.book.Shares(side), a);
  }
}
