/** Integer arithmetic as the contracts see it, and the few nonlinear facts the proofs use. */
module Arithmetic {

  /** Division that truncates toward zero. */
  function TruncDiv(a: int, b: int): (q: int)
    requires b != 0
    ensures a >= 0 && b > 0 ==> q == a / b && q >= 0
    ensures b > 0 && a <= 0 ==> q <= 0
    ensures b < 0 && a >= 0 ==> q <= 0
  {
    DivBounds(Abs(a), Abs(b));
    var magnitude := Abs(a) / Abs(b);
    if (a >= 0) == (b > 0) then magnitude else -magnitude
  }

  function Abs(x: int): nat {
    if x >= 0 then x else -x
  }

  function Max(x: int, y: int): int {
    if x >= y then x else y
  }

  function Square(x: int): int {
    x * x
  }

  lemma DivBounds(a: int, b: int)
    requires b > 0
    ensures a / b * b <= a < (a / b + 1) * b
    ensures a >= 0 ==> a / b >= 0
  {
    assert a == a / b * b + a % b;
    if a >= 0 && a / b < 0 {
      MulMono(a / b, -1, b);
    }
  }

  /** The bounds of DivBounds determine the quotient. */
  lemma DivIs(a: int, b: int, q: int)
    requires b > 0
    requires q * b <= a < (q + 1) * b
    ensures a / b == q
  {
    DivBounds(a, b);
    if a / b < q {
      MulMono(a / b + 1, q, b);
    } else if q < a / b {
      MulMono(q + 1, a / b, b);
    }
  }

  lemma MulMono(x: int, y: int, z: int)
    requires x <= y && 0 <= z
    ensures x * z <= y * z
    ensures z * x <= z * y
  {
    assert 0 <= (y - x) * z;
  }

  lemma MulNonNeg(x: int, y: int)
    requires 0 <= x && 0 <= y
    ensures 0 <= x * y
  {
  }

  lemma SquareNonNeg(x: int)
    ensures 0 <= x * x
  {
  }

  /** Squares order the naturals. */
  lemma SquareMono(x: int, y: int)
    requires 0 <= x <= y
    ensures x * x <= y * y
  {
    MulMono(x, y, x);
    MulMono(x, y, y);
  }

  lemma SquareReflects(x: int, y: int)
    requires 0 <= y
    requires x * x <= y * y
    ensures x <= y
  {
    if y < x {
      SquareMono(y + 1, x);
    }
  }

  lemma SquareReflectsStrict(x: int, y: int)
    requires 0 <= y
    requires x * x < y * y
    ensures x < y
  {
    if y <= x {
      SquareMono(y, x);
    }
  }

  /** The root of n, given that of n / 4. */
  function NextRoot(n: nat, h: nat): nat {
    if Square(2 * h + 1) <= n then 2 * h + 1 else 2 * h
  }

  /** Floor square root, one base-4 digit at a time. */
  function FloorSqrt(n: nat): nat {
    if n == 0 then 0 else NextRoot(n, FloorSqrt(n / 4))
  }

  lemma {:induction false} FloorSqrtSquares(n: nat)
    ensures Square(FloorSqrt(n)) <= n < Square(FloorSqrt(n) + 1)
  {
    hide Square, NextRoot;
    if n == 0 {
      SqrtOfZero();
    } else {
      FloorSqrtSquares(n / 4);
      SqrtDigit(n, FloorSqrt(n / 4));
    }
  }

  lemma SqrtOfZero()
    ensures Square(FloorSqrt(0)) <= 0 < Square(FloorSqrt(0) + 1)
  {
  }

  lemma SqrtDigit(n: nat, h: nat)
    requires 0 < n && Square(h) <= n / 4 < Square(h + 1)
    ensures Square(NextRoot(n, h)) <= n < Square(NextRoot(n, h) + 1)
  {
    hide Square;
    SquareOfDouble(h);
    SquareOfDouble(h + 1);
  }

  lemma SquareOfDouble(x: int)
    ensures Square(2 * x) == 4 * Square(x)
  {
  }

  lemma FloorSqrtBounds(n: nat)
    ensures var r := FloorSqrt(n); r * r <= n < (r + 1) * (r + 1)
  {
    hide FloorSqrt;
    FloorSqrtSquares(n);
  }

  /** x*x <= n says exactly that x does not exceed the root. */
  lemma BelowSqrt(n: nat, x: int)
    ensures Square(x) <= n ==> x <= FloorSqrt(n)
    ensures 0 <= x <= FloorSqrt(n) ==> Square(x) <= n
  {
    hide FloorSqrt;
    var r := FloorSqrt(n);
    FloorSqrtBounds(n);
    if x * x <= n {
      SquareReflectsStrict(x, r + 1);
    }
    if 0 <= x <= r {
      SquareMono(x, r);
    }
  }

  lemma FloorSqrtIs(n: nat, r: nat)
    requires Square(r) <= n < Square(r + 1)
    ensures FloorSqrt(n) == r
  {
    BelowSqrt(n, r);
    BelowSqrt(n, r + 1);
  }

  /** 10 to the power n. */
  function Pow10(n: nat): (p: nat)
    ensures p >= 1
    ensures n == 0 ==> p == 1
  {
    if n == 0 then 1 else 10 * Pow10(n - 1)
  }

  lemma Pow10Even(n: nat)
    requires 1 <= n
    ensures Pow10(n) % 2 == 0
  {
    assert Pow10(n) == 2 * (5 * Pow10(n - 1));
  }
}
