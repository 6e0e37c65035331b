/** The test on the lowest bit set in any scale misses nothing: if it fails, there are values of the
    variables for which the accesses meet. */
module GepLowestBit {
  import opened Powers
  import opened Bits
  import opened GepIndices
  import opened GepDistance

  predicate DistinctVariables(xs: seq<Index>) {
    forall i, j :: 0 <= i < j < |xs| ==> !SameVariable(xs[i], xs[j])
  }

  // ---- an odd number times something is everything, modulo a power of two

  lemma {:induction false} OddReaches(s: nat, n: nat, t: int) returns (x: int)
    requires s % 2 == 1
    ensures Congruent(s * x, t, Pow2(n))
  {
    if n == 0 {
      x := 0;
      CongruentBy(s * x, t, 1, s * x - t);
    } else {
      x := OddReaches(s, n - 1, t);
      var q :| s * x - t == Times(q, Pow2(n - 1));
      if q % 2 == 0 {
        HalfOfMultiple(s * x - t, q, Pow2(n - 1));
        CongruentBy(s * x, t, Pow2(n), q / 2);
      } else {
        var y := x + Pow2(n - 1);
        assert s * y - t == Times(q + s, Pow2(n - 1)) by {
          assert s * y == s * x + s * Pow2(n - 1);
          assert (q + s) * Pow2(n - 1) == q * Pow2(n - 1) + s * Pow2(n - 1);
        }
        HalfOfMultiple(s * y - t, q + s, Pow2(n - 1));
        CongruentBy(s * y, t, Pow2(n), (q + s) / 2);
        x := y;
      }
    }
  }

  lemma HalfOfMultiple(d: int, q: int, p: nat)
    requires d == Times(q, p) && q % 2 == 0
    ensures d == q / 2 * (2 * p)
  {
    assert q / 2 * 2 == q;
    assert q / 2 * (2 * p) == (q / 2 * 2) * p;
  }

  lemma OddMultipleReaches(s: nat, k: nat, p: nat, t: int) returns (x: int)
    requires k < 64 && p == Pow2(k) && s % 2 == 1
    ensures Congruent(s * x * p, t * p, U64)
  {
    x := OddReaches(s, 64 - k, t);
    Pow2Is64();
    Pow2Add(64 - k, k);
    ShiftedCongruent(s * x, t, Pow2(64 - k), p);
  }

  /** A scale whose lowest bit is bit k reaches every multiple of 2^k. */
  lemma ScaleReaches(scale: int, k: nat, t: int) returns (x: int)
    requires k < 64 && scale % U64 % Pow2(k) == 0 && scale % U64 % Pow2(k + 1) != 0
    ensures Congruent(scale * x, t * Pow2(k), U64)
  {
    var s := OddPart(scale % U64, Pow2(k));
    x := OddMultipleReaches(s, k, Pow2(k), t);
    SameProduct(scale, scale % U64, s, Pow2(k), x, t);
  }

  lemma OddPart(r: nat, p: nat) returns (s: nat)
    requires p > 0 && r % p == 0 && r % (2 * p) != 0
    ensures r == s * p && s % 2 == 1
  {
    s := r / p;
    QuotientBounds(r, p, s);
    OddQuotient(r, p, s);
  }

  lemma SameProduct(scale: int, r: nat, s: nat, p: nat, x: int, t: int)
    requires r == scale % U64 && r == s * p && Congruent(s * x * p, t * p, U64)
    ensures Congruent(scale * x, t * p, U64)
  {
    RemainderIsCongruent(scale, U64);
    CongruentSymmetric(r, scale, U64);
    CongruentProduct(scale, r, x, U64);
    assert s * x * p == s * p * x;
    CongruentTransitive(scale * x, r * x, t * p, U64);
  }

  lemma OddQuotient(r: nat, p: nat, s: nat)
    requires p > 0 && r == s * p && r % (2 * p) != 0
    ensures s % 2 == 1
  {
    if s % 2 == 0 {
      assert s / 2 * (2 * p) == r;
      QuotientIs(r, 2 * p, s / 2, 0);
    }
  }

  // ---- some index has the lowest bit

  lemma {:induction false} AllDivisible(xs: seq<Index>, k: nat, i: nat)
    requires i < |xs| && OrOfScales(xs) % Pow2(k) == 0
    ensures xs[i].scale % U64 % Pow2(k) == 0
  {
    var n := |xs| - 1;
    DividesBoth(OrOfScales(xs[..n]), xs[n].scale % U64, k);
    if i < n {
      AllDivisible(xs[..n], k, i);
    }
  }

  lemma {:induction false} SomeNotDivisible(xs: seq<Index>, k: nat) returns (i: nat)
    requires OrOfScales(xs) % Pow2(k) != 0
    ensures i < |xs| && xs[i].scale % U64 % Pow2(k) != 0
  {
    if xs == [] {
      QuotientIs(0, Pow2(k), 0, 0);
    } else {
      i := |xs| - 1;
      if xs[i].scale % U64 % Pow2(k) == 0 {
        if OrOfScales(xs[..i]) % Pow2(k) == 0 {
          DividesOr(OrOfScales(xs[..i]), xs[i].scale % U64, k);
        }
        i := SomeNotDivisible(xs[..i], k);
      }
    }
  }

  // ---- values for a given distance

  function OnlyOne(x: Index, r: int): Valuation {
    (v, z, s) => if v == x.v && z == x.zextBits && s == x.sextBits then r else 0
  }

  lemma {:induction false} FormOfOne(xs: seq<Index>, i: nat, r: int)
    requires i < |xs| && DistinctVariables(xs)
    ensures Form(xs, OnlyOne(xs[i], r)) == xs[i].scale * r
  {
    var n, value := |xs| - 1, OnlyOne(xs[i], r);
    if i < n {
      FormOfOne(xs[..n], i, r);
      assert !SameVariable(xs[i], xs[n]);
      assert ValueOf(xs[n].v, xs[n].zextBits, xs[n].sextBits, value) == 0;
    } else {
      FormOfNone(xs[..n], xs[n], r);
      assert ValueOf(xs[n].v, xs[n].zextBits, xs[n].sextBits, value) == r;
    }
  }

  lemma {:induction false} FormOfNone(xs: seq<Index>, x: Index, r: int)
    requires forall j :: 0 <= j < |xs| ==> !SameVariable(xs[j], x)
    ensures Form(xs, OnlyOne(x, r)) == 0
  {
    if xs != [] {
      var n := |xs| - 1;
      FormOfNone(xs[..n], x, r);
      assert !SameVariable(xs[n], x);
      assert ValueOf(xs[n].v, xs[n].zextBits, xs[n].sextBits, OnlyOne(x, r)) == 0;
    }
  }

  lemma {:induction false} FormOfZeros(xs: seq<Index>, zero: Valuation)
    requires forall v, z, s :: ValueOf(v, z, s, zero) == 0
    ensures Form(xs, zero) == 0
  {
    if xs != [] {
      FormOfZeros(xs[..|xs| - 1], zero);
    }
  }

  /** The variables can be chosen so that the list has, modulo 2^64, any multiple of the lowest bit. */
  lemma ReachesMultiple(xs: seq<Index>, k: nat, t: int) returns (value: Valuation)
    requires DistinctVariables(xs) && k <= 64 && OrOfScales(xs) % Pow2(k) == 0
    requires k < 64 ==> OrOfScales(xs) % Pow2(k + 1) != 0
    ensures Congruent(Form(xs, value), t * Pow2(k), U64)
  {
    Pow2Is64();
    if k == 64 {
      value := (v, z, s) => 0;
      FormOfZeros(xs, value);
      CongruentBy(0, t * U64, U64, 0 - t);
    } else {
      var i := SomeNotDivisible(xs, k + 1);
      AllDivisible(xs, k, i);
      var x := ScaleReaches(xs[i].scale, k, t);
      value := OnlyOne(xs[i], x);
      FormOfOne(xs, i, x);
    }
  }

  /** So it reaches every distance that is the offset modulo the lowest bit. */
  lemma ReachesDistance(xs: seq<Index>, k: nat, baseOffset: int, delta: int) returns (value: Valuation)
    requires DistinctVariables(xs) && k <= 64 && OrOfScales(xs) % Pow2(k) == 0
    requires k < 64 ==> OrOfScales(xs) % Pow2(k + 1) != 0
    requires Congruent(baseOffset, delta, Pow2(k))
    ensures Congruent(baseOffset + Form(xs, value), delta, U64)
  {
    var j :| baseOffset - delta == Times(j, Pow2(k));
    value := ReachesMultiple(xs, k, 0 - j);
    assert (0 - j) * Pow2(k) == delta - baseOffset;
    CongruentSelf(baseOffset, U64);
    CongruentSum(baseOffset, baseOffset, Form(xs, value), delta - baseOffset, U64);
  }

  /** For accesses of known sizes and different variables the test says yes exactly if the accesses
      never meet at addresses of 64 bits, whatever the variables are. */
  lemma LowestBitIsExact(xs: seq<Index>, size1: nat, size2: nat, baseOffset: int)
    requires DistinctVariables(xs) && 0 < size1 < UNKNOWN_SIZE && 0 < size2 < UNKNOWN_SIZE
    ensures ApartByLowestBit(xs, size1, size2, baseOffset)
       <==> forall value: Valuation :: ApartModulo(baseOffset + Form(xs, value), size1, size2)
  {
    if ApartByLowestBit(xs, size1, size2, baseOffset) {
      forall value: Valuation
        ensures ApartModulo(baseOffset + Form(xs, value), size1, size2)
      {
        LowestBitKeepsApart(xs, size1, size2, baseOffset, value);
      }
    } else {
      var value := MeetsSomewhere(xs, size1, size2, baseOffset);
    }
  }

  lemma MeetsSomewhere(xs: seq<Index>, size1: nat, size2: nat, baseOffset: int) returns (value: Valuation)
    requires DistinctVariables(xs) && 0 < size1 < UNKNOWN_SIZE && 0 < size2 < UNKNOWN_SIZE
    requires !ApartByLowestBit(xs, size1, size2, baseOffset)
    ensures !ApartModulo(baseOffset + Form(xs, value), size1, size2)
  {
    var k, o := TestOnRemainder(xs, size1, size2, baseOffset);
    if o < size2 {
      value := ReachesDistance(xs, k, baseOffset, o);
      assert Meets(baseOffset + Form(xs, value), 0, o);
    } else {
      value := MeetsFromBehind(xs, size1, size2, baseOffset, k, o);
    }
  }

  /** The first access starts before the second one, in its piece of memory, and reaches it. */
  lemma MeetsFromBehind(xs: seq<Index>, size1: nat, size2: nat, baseOffset: int, k: nat, o: nat)
    returns (value: Valuation)
    requires DistinctVariables(xs) && k <= 64 && OrOfScales(xs) % Pow2(k) == 0
    requires k < 64 ==> OrOfScales(xs) % Pow2(k + 1) != 0
    requires Congruent(baseOffset, o, Pow2(k)) && o < Pow2(k) && size1 > Pow2(k) - o && 0 < size2
    ensures !ApartModulo(baseOffset + Form(xs, value), size1, size2)
  {
    var i: nat := Pow2(k) - o;
    CongruentBy(o, 0 - i, Pow2(k), 1);
    CongruentTransitive(baseOffset, o, 0 - i, Pow2(k));
    value := ReachesDistance(xs, k, baseOffset, 0 - i);
    CongruentSelf(i, U64);
    CongruentSum(baseOffset + Form(xs, value), 0 - i, i, i, U64);
    assert Meets(baseOffset + Form(xs, value), i, 0);
  }
}
