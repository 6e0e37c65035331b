/** Bitwise operations on numbers, and equality modulo a number. */
module Bits {
  import opened Powers

  function And(a: nat, b: nat): nat {
    if a == 0 || b == 0 then 0 else 2 * And(a / 2, b / 2) + (if a % 2 == 1 && b % 2 == 1 then 1 else 0)
  }

  function Or(a: nat, b: nat): nat {
    if a == 0 then b else if b == 0 then a
    else 2 * Or(a / 2, b / 2) + (if a % 2 == 1 || b % 2 == 1 then 1 else 0)
  }

  function Xor(a: nat, b: nat): nat {
    if a == 0 then b else if b == 0 then a
    else 2 * Xor(a / 2, b / 2) + (if a % 2 != b % 2 then 1 else 0)
  }

  /** Numbers with no bit in common are added bit by bit. */
  lemma {:induction false} OrOfDisjoint(a: nat, b: nat)
    ensures Or(a, b) + And(a, b) == a + b
  {
    if a != 0 && b != 0 {
      OrOfDisjoint(a / 2, b / 2);
    }
  }

  lemma {:induction false} OrBound(a: nat, b: nat, w: nat)
    requires a < Pow2(w) && b < Pow2(w)
    ensures Or(a, b) < Pow2(w)
  {
    if a != 0 && b != 0 {
      OrBound(a / 2, b / 2, w - 1);
    }
  }

  lemma {:induction false} AndSelf(a: nat)
    ensures And(a, a) == a && Xor(a, a) == 0
  {
    if a != 0 {
      AndSelf(a / 2);
    }
  }

  /** Masking with a power of two less one takes the remainder. */
  lemma {:induction false} MaskIsRemainder(x: nat, k: nat)
    ensures And(x, Pow2(k) - 1) == x % Pow2(k)
  {
    if x == 0 {
      QuotientIs(0, Pow2(k), 0, 0);
    } else if k > 0 {
      var p := Pow2(k - 1);
      MaskIsRemainder(x / 2, k - 1);
      assert (Pow2(k) - 1) / 2 == p - 1;
      DoubleRemainder(x, p);
    }
  }

  lemma DoubleRemainder(x: nat, p: nat)
    requires p > 0
    ensures x % (2 * p) == 2 * (x / 2 % p) + x % 2
  {
    var q := Quotient(x / 2, p);
    QuotientBounds(x / 2, p, q);
    var r := x / 2 - q * p;
    assert q * (2 * p) == 2 * (q * p);
    QuotientIs(x, 2 * p, q, 2 * r + x % 2);
  }

  /** Taking away from a number all bits but the lowest one leaves the greatest power of two that
      divides it. */
  lemma {:induction false} LowestBit(m: nat) returns (k: nat)
    requires m > 0
    ensures Xor(m, And(m, m - 1)) == Pow2(k) && m % Pow2(k) == 0 && m % Pow2(k + 1) != 0
  {
    if m % 2 == 1 {
      k := 0;
      OddLowestBit(m);
    } else {
      var h := m / 2;
      assert m - 1 > 0 && (m - 1) / 2 == h - 1 && (m - 1) % 2 == 1;
      k := LowestBit(h);
      k := k + 1;
      EvenLowestBit(m, h);
      DoubleDivides(m, Pow2(k - 1));
      DoubleRemainder(m, Pow2(k));
    }
  }

  lemma OddLowestBit(m: nat)
    requires m % 2 == 1
    ensures Xor(m, And(m, m - 1)) == 1
  {
    var h := m / 2;
    AndSelf(h);
    assert (m - 1) / 2 == h && (m - 1) % 2 == 0;
    assert And(m, m - 1) == m - 1;
  }

  lemma EvenLowestBit(m: nat, h: nat)
    requires m > 0 && m == 2 * h
    ensures Xor(m, And(m, m - 1)) == 2 * Xor(h, And(h, h - 1))
  {
  }

  /** A power of two that divides the bits of two numbers taken together divides both. */
  lemma {:induction false} DividesBoth(a: nat, b: nat, k: nat)
    requires Or(a, b) % Pow2(k) == 0
    ensures a % Pow2(k) == 0 && b % Pow2(k) == 0
  {
    if a == 0 || b == 0 {
      QuotientIs(0, Pow2(k), 0, 0);
    } else if k > 0 {
      var p := Pow2(k - 1);
      HalfDivides(Or(a, b), p);
      DividesBoth(a / 2, b / 2, k - 1);
      DoubleDivides(a, p);
      DoubleDivides(b, p);
    }
  }

  /** And the other way around. */
  lemma {:induction false} DividesOr(a: nat, b: nat, k: nat)
    requires a % Pow2(k) == 0 && b % Pow2(k) == 0
    ensures Or(a, b) % Pow2(k) == 0
  {
    if a != 0 && b != 0 && k > 0 {
      var p := Pow2(k - 1);
      HalfDivides(a, p);
      HalfDivides(b, p);
      DividesOr(a / 2, b / 2, k - 1);
      OrInHalves(a, b);
      DoubleDivides(Or(a, b), p);
    }
  }

  lemma OrInHalves(a: nat, b: nat)
    ensures Or(a, b) / 2 == Or(a / 2, b / 2) && (a % 2 == 0 && b % 2 == 0 ==> Or(a, b) % 2 == 0)
  {
  }

  lemma HalfDivides(n: nat, p: nat)
    requires p > 0 && n % (2 * p) == 0
    ensures n % 2 == 0 && (n / 2) % p == 0
  {
    var q := Quotient(n, 2 * p);
    QuotientBounds(n, 2 * p, q);
    assert q * (2 * p) == 2 * (q * p);
    QuotientIs(n / 2, p, q, 0);
  }

  lemma DoubleDivides(n: nat, p: nat)
    requires p > 0 && n % 2 == 0 && (n / 2) % p == 0
    ensures n % (2 * p) == 0
  {
    var q := Quotient(n / 2, p);
    QuotientBounds(n / 2, p, q);
    assert q * (2 * p) == 2 * (q * p);
    QuotientIs(n, 2 * p, q, 0);
  }

  // ---- equality modulo m

  function Times(k: int, m: int): int {
    k * m
  }

  ghost predicate Congruent(a: int, b: int, m: int) {
    exists k :: a - b == Times(k, m)
  }

  lemma CongruentBy(a: int, b: int, m: int, k: int)
    requires a - b == k * m
    ensures Congruent(a, b, m)
  {
    assert a - b == Times(k, m);
  }

  lemma CongruentSelf(a: int, m: int)
    ensures Congruent(a, a, m)
  {
    CongruentBy(a, a, m, 0);
  }

  lemma CongruentSymmetric(a: int, b: int, m: int)
    requires Congruent(a, b, m)
    ensures Congruent(b, a, m)
  {
    var k :| a - b == Times(k, m);
    assert b - a == (-k) * m;
    CongruentBy(b, a, m, -k);
  }

  lemma CongruentTransitive(a: int, b: int, c: int, m: int)
    requires Congruent(a, b, m) && Congruent(b, c, m)
    ensures Congruent(a, c, m)
  {
    var k :| a - b == Times(k, m);
    var l :| b - c == Times(l, m);
    assert a - c == (k + l) * m;
    CongruentBy(a, c, m, k + l);
  }

  lemma CongruentSum(a: int, b: int, c: int, d: int, m: int)
    requires Congruent(a, b, m) && Congruent(c, d, m)
    ensures Congruent(a + c, b + d, m) && Congruent(a - c, b - d, m)
  {
    var k :| a - b == Times(k, m);
    var l :| c - d == Times(l, m);
    assert (a + c) - (b + d) == (k + l) * m;
    assert (a - c) - (b - d) == (k - l) * m;
    CongruentBy(a + c, b + d, m, k + l);
    CongruentBy(a - c, b - d, m, k - l);
  }

  lemma CongruentProduct(a: int, b: int, c: int, m: int)
    requires Congruent(a, b, m)
    ensures Congruent(a * c, b * c, m)
  {
    var k :| a - b == Times(k, m);
    assert a * c - b * c == (k * c) * m by {
      assert (a - b) * c == (k * m) * c;
    }
    CongruentBy(a * c, b * c, m, k * c);
  }

  lemma RemainderIsCongruent(a: int, m: int)
    requires m > 0
    ensures Congruent(a % m, a, m)
  {
    assert a % m - a == (-(a / m)) * m;
    CongruentBy(a % m, a, m, -(a / m));
  }

  /** A multiple of the modulus does not matter. */
  lemma CongruentWeaker(a: int, b: int, m: int, n: int, q: int)
    requires Congruent(a, b, m) && m == q * n
    ensures Congruent(a, b, n)
  {
    var k :| a - b == Times(k, m);
    assert k * (q * n) == (k * q) * n;
    CongruentBy(a, b, n, k * q);
  }

  lemma CongruentPowers(a: int, b: int, w: nat, v: nat)
    requires Congruent(a, b, Pow2(w)) && v <= w
    ensures Congruent(a, b, Pow2(v))
  {
    Pow2Add(w - v, v);
    CongruentWeaker(a, b, Pow2(w), Pow2(v), Pow2(w - v));
  }

  lemma CongruentIsEqual(a: int, b: int, m: int)
    requires m > 0 && Congruent(a, b, m) && 0 <= a < m && 0 <= b < m
    ensures a == b
  {
  }

  lemma CongruentToRemainder(a: int, r: int, m: int)
    requires m > 0 && Congruent(a, r, m) && 0 <= r < m
    ensures a % m == r
  {
    RemainderIsCongruent(a, m);
    CongruentTransitive(a % m, a, r, m);
    CongruentIsEqual(a % m, r, m);
  }
}
