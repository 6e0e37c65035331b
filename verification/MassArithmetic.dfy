/** The fixed-point arithmetic of block masses and branch probabilities. */
module MassArithmetic {
  import opened Powers

  const FULL: int := U64 - 1

  /** The denominator of all branch probabilities. */
  const D: int := 0x8000_0000

  type Mass = m: int | 0 <= m < U64

  // ---- saturating sums

  function Min(a: int, b: int): int {
    if a <= b then a else b
  }

  /** 64-bit addition and subtraction, which stop at full and at empty mass. */
  function Plus(a: Mass, b: Mass): (r: Mass)
    ensures r == Min(FULL, a + b)
  {
    var sum := (a + b) % U64;
    if sum < a then FULL else sum
  }

  function Minus(a: Mass, b: Mass): (r: Mass)
    ensures r == if b <= a then a - b else 0
  {
    var diff := (a - b) % U64;
    if diff > a then 0 else diff
  }

  // ---- powers of two

  lemma Pow2Values()
    ensures Pow2(31) == D && Pow2(32) == U32 && Pow2(33) == 2 * U32 && Pow2(64) == U64
  {
    Pow2Is64();
    assert Pow2(32) == 2 * Pow2(31);
  }

  /** The number of zero bits before the highest bit of a 64-bit number that is set. */
  method CountLeadingZeros(n: int) returns (z: nat)
    requires 0 < n < U64
    ensures z < 64 && Pow2(63 - z) <= n < Pow2(64 - z)
  {
    Pow2Values();
    z := 0;
    while n < Pow2(63 - z)
      invariant z < 64 && n < Pow2(64 - z)
      decreases 64 - z
    {
      z := z + 1;
    }
  }

  lemma DivideTwice(n: nat, q: nat)
    requires q > 0
    ensures Quotient(n, 2 * q) == Quotient(n, q) / 2
  {
    var a := Quotient(n, q);
    QuotientBounds(n, q, a);
    var h, b := a / 2, a % 2;
    assert a * q == h * (2 * q) + b * q by {
      assert a == 2 * h + b;
      assert (2 * h + b) * q == (2 * h) * q + b * q;
      assert (2 * h) * q == h * (2 * q);
    }
    var r := n - a * q;
    assert 0 <= b * q <= q;
    QuotientIs(n, 2 * q, h, b * q + r);
  }

  /** N >> s, and the bit shifted out last added. */
  function ShiftRightAndRound(n: nat, s: nat): nat
    requires s < 64
  {
    if s == 0 then n else Quotient(n, Pow2(s)) + Quotient(n, Pow2(s - 1)) % 2
  }

  lemma RoundOnce(n: nat, q: nat)
    requires q > 0
    ensures Quotient(n, 2 * q) + Quotient(n, q) % 2 == Quotient(n + q, 2 * q)
  {
    DivideTwice(n, q);
    DivideTwice(n + q, q);
    QuotientOneMore(n, q);
  }

  lemma QuotientOneMore(n: nat, q: nat)
    requires q > 0
    ensures Quotient(n + q, q) == Quotient(n, q) + 1
  {
    var a := Quotient(n, q);
    QuotientBounds(n, q, a);
    assert (a + 1) * q == a * q + q;
    QuotientIs(n + q, q, a + 1, n - a * q);
  }

  /** This rounds to the nearest, halves upwards. */
  lemma RoundsToNearest(n: nat, s: nat)
    requires 0 < s < 64
    ensures ShiftRightAndRound(n, s) == Quotient(n + Pow2(s - 1), Pow2(s))
  {
    RoundOnce(n, Pow2(s - 1));
  }

  // ---- probabilities

  /** The numerator of the probability a / b: the nearest one. */
  function Probability(a: nat, b: nat): (n: nat)
    requires a <= b && 0 < b < U32
    ensures n <= D && (a == b ==> n == D)
    ensures 0 - b <= 2 * (n * b - a * D) <= b
  {
    if b == D then a
    else
      QuotientIs(b * D + b / 2, b, D, b / 2);
      QuotientMonotone(a * D + b / 2, b * D + b / 2, b);
      QuotientBounds(a * D + b / 2, b, Quotient(a * D + b / 2, b));
      Quotient(a * D + b / 2, b)
  }

  /** A probability of a mass is computed in 32-bit digits, without loss: the product is divided
      exactly and rounded down, up to full mass. */
  method Scale(num: Mass, n: nat) returns (r: Mass)
    requires n < U32
    ensures r == Min(FULL, Quotient(num * n, D))
  {
    if num == 0 || n == D {
      FastPath(num, n);
      return num;
    }
    var high: nat, low: nat := num / U32, num % U32;
    ProductDigits(num, n, high * n, low * n);
    r := DivideDigits(high * n, low * n);
  }

  lemma FastPath(num: Mass, n: nat)
    requires num == 0 || n == D
    ensures Quotient(num * n, D) == num
  {
  }

  lemma ProductDigits(num: Mass, n: nat, high: nat, low: nat)
    requires n < U32 && high == (num / U32) * n && low == (num % U32) * n
    ensures num * n == high * U32 + low
    ensures high <= (U32 - 1) * (U32 - 1) && low <= (U32 - 1) * (U32 - 1)
  {
    var h: nat, l: nat := num / U32, num % U32;
    assert num * n == high * U32 + low by {
      assert num == h * U32 + l;
      assert (h * U32 + l) * n == (h * U32) * n + l * n;
      assert (h * U32) * n == (h * n) * U32;
    }
    ProductBound(h, n);
    ProductBound(l, n);
  }

  lemma ProductBound(h: nat, n: nat)
    requires h < U32 && n < U32
    ensures h * n <= (U32 - 1) * (U32 - 1)
  {
    MulMonotone(h, U32 - 1, n);
    MulMonotone(n, U32 - 1, U32 - 1);
  }

  /** Long division: the remainder of the upper digits goes into the lower one. */
  lemma LowerDigit(upper: nat, lower: nat)
    requires lower < U32
    ensures Quotient(upper * U32 + lower, D) == upper / D * U32 + (upper % D * U32 + lower) / D
    ensures upper < D * U32 ==> upper / D < U32 && (upper % D * U32 + lower) / D < U32
  {
  }

  lemma TooLarge(upper: nat, rest: nat)
    requires upper >= D
    ensures Quotient(upper * U64 + rest, D) > FULL
  {
  }

  /** Adding in 32 bits overflows exactly when the result is smaller than what was added to. */
  lemma Carry(a: nat, b: nat)
    requires a < U32 && b < U32
    ensures (a + b) % U32 + (if (a + b) % U32 < a then U32 else 0) == a + b
  {
  }

  /** The sum of the two partial products, divided digit by digit. */
  method DivideDigits(productHigh: nat, productLow: nat) returns (r: Mass)
    requires productHigh <= (U32 - 1) * (U32 - 1) && productLow <= (U32 - 1) * (U32 - 1)
    ensures r == Min(FULL, Quotient(productHigh * U32 + productLow, D))
  {
    var upper, lower := productHigh / U32, productLow % U32;
    var midPartial := productHigh % U32;
    var mid := (midPartial + productLow / U32) % U32;
    Carry(midPartial, productLow / U32);
    if mid < midPartial {
      upper := upper + 1;
    }
    assert productHigh * U32 + productLow == upper * U64 + (mid * U32 + lower);
    if upper >= D {
      TooLarge(upper, mid * U32 + lower);
      return FULL;
    }
    r := DivideRemainder(upper, mid, lower);
  }

  method DivideRemainder(upper: nat, mid: nat, lower: nat) returns (r: Mass)
    requires upper < D && mid < U32 && lower < U32
    ensures r == Quotient(upper * U64 + (mid * U32 + lower), D)
  {
    var rem := upper * U32 + mid;
    assert upper * U64 + (mid * U32 + lower) == rem * U32 + lower;
    LowerDigit(rem, lower);
    var upperQ := rem / D;
    if upperQ > U32 - 1 {
      assert false;
    }
    rem := rem % D * U32 + lower;
    var lowerQ := rem / D;
    r := (upperQ * U32 + lowerQ) % U64;
    if r < lowerQ {
      assert false;
    }
  }

  /** The part of a mass that a probability takes. */
  lemma PartOfMass(m: Mass, n: nat)
    requires n <= D
    ensures Quotient(m * n, D) <= m && (n == D ==> Quotient(m * n, D) == m)
  {
    QuotientIs(m * D, D, m, 0);
    MulMonotone(n, D, m);
    QuotientMonotone(m * n, m * D, D);
  }
}
