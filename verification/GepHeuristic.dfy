/** The rule for two variables that differ by a known constant. */
module GepHeuristic {
  import opened Powers
  import opened Bits
  import opened LinearExpressions
  import opened GepIndices
  import opened GepStates
  import opened GepDistance

  function Abs(x: int): nat {
    if x < 0 then -x else x
  }

  /** The smallest distance of two numbers of which only the difference modulo 2^w is known. */
  function MinDistance(d: nat, w: nat): nat
    requires d < Pow2(w)
  {
    if d <= Pow2(w) - d then d else Pow2(w) - d
  }

  lemma MinDistanceIsLeast(x: int, y: int, d: nat, w: nat)
    requires d < Pow2(w) && Congruent(x - y, d, Pow2(w))
    ensures Abs(x - y) >= MinDistance(d, w)
  {
    var k :| x - y - d == Times(k, Pow2(w));
    if k >= 0 {
      assert k * Pow2(w) >= 0;
    } else {
      MulMonotone(1, -k, Pow2(w));
    }
  }

  lemma AbsProduct(a: int, b: int, m: nat)
    requires Abs(b) >= m
    ensures Abs(a * b) >= Abs(a) * m
  {
  }

  /** Two forms with the same scale and equal variables differ by their constants. */
  lemma FormsDifferByOffsets(a: int, b: int, s: int, v: int, o1: int, o2: int, w: nat)
    requires Congruent(a, s * v + o1, Pow2(w)) && Congruent(b, s * v + o2, Pow2(w))
    ensures Congruent(a - b, (o1 - o2) % Pow2(w), Pow2(w))
  {
    CongruentSum(a, s * v + o1, b, s * v + o2, Pow2(w));
    RemainderIsCongruent(o1 - o2, Pow2(w));
    CongruentSymmetric((o1 - o2) % Pow2(w), o1 - o2, Pow2(w));
    CongruentTransitive(a - b, o1 - o2, (o1 - o2) % Pow2(w), Pow2(w));
  }

  // ---- the rule

  /** The smallest distance in bytes, computed in 64 bits. */
  function Gap(d: nat, w: nat, scale: int): nat
    requires d < Pow2(w)
  {
    MinDistance(d, w) * Abs(scale) % U64
  }

  /** The last test: both sizes, each with the distance of the bases, fit into the gap.  The sums
      are taken in 64 bits. */
  predicate FitsIntoGap(size1: nat, size2: nat, baseOffset: int, gap: nat) {
    (size1 + Abs(baseOffset)) % U64 <= gap && (size2 + Abs(baseOffset)) % U64 <= gap
  }

  /** The difference of two variables, as far as their decompositions tell it. */
  function KnownDifference(l0: Linear, l1: Linear, w: nat): nat {
    (l0.offset - l1.offset) % Pow2(w)
  }

  /** Two variables with the same extensions and opposite scales are decomposed into the same base
      with the same scale. */
  predicate IsPair(xs: seq<Index>, equal: Equality, maskedValueIsZero: (Expr, nat) -> bool)
    requires Typed(xs)
  {
    && |xs| == 2 && xs[0].zextBits == xs[1].zextBits && xs[0].sextBits == xs[1].sextBits
    && xs[0].scale == 0 - xs[1].scale
    && var w := Width(xs[1].v);
       var l0 := Decompose(xs[0].v, 0, true, true, w, maskedValueIsZero);
       var l1 := Decompose(xs[1].v, 0, true, true, w, maskedValueIsZero);
       l0.scale == l1.scale && l0.zextBits == l1.zextBits && equal(l0.base, l1.base)
  }

  /** The difference of the variables of a pair, modulo 2 to their width. */
  function PairDifference(xs: seq<Index>, maskedValueIsZero: (Expr, nat) -> bool): (d: nat)
    requires Typed(xs) && |xs| == 2
    ensures d < Pow2(Width(xs[1].v))
  {
    var w := Width(xs[1].v);
    KnownDifference(Decompose(xs[0].v, 0, true, true, w, maskedValueIsZero),
                    Decompose(xs[1].v, 0, true, true, w, maskedValueIsZero), w)
  }

  /** When the rule says that two accesses do not overlap. */
  predicate FarApart(xs: seq<Index>, size1: nat, size2: nat, baseOffset: int, equal: Equality,
                     maskedValueIsZero: (Expr, nat) -> bool)
    requires Typed(xs)
  {
    && size1 != UNKNOWN_SIZE && size2 != UNKNOWN_SIZE && IsPair(xs, equal, maskedValueIsZero)
    && FitsIntoGap(size1, size2, baseOffset, Gap(PairDifference(xs, maskedValueIsZero), Width(xs[1].v), xs[0].scale))
  }

  lemma FitsIntoGapIs(size1: nat, size2: nat, baseOffset: int, d: nat, w: nat, scale: int)
    requires d < Pow2(w)
    ensures var s, o := if scale < 0 then 0 - scale else scale, if baseOffset < 0 then 0 - baseOffset else baseOffset;
            var gap := (if d <= Pow2(w) - d then d else Pow2(w) - d) * s % U64;
            FitsIntoGap(size1, size2, baseOffset, Gap(d, w, scale))
            <==> (size1 + o) % U64 <= gap && (size2 + o) % U64 <= gap
  {
  }

  lemma PairIs(xs: seq<Index>, equal: Equality, maskedValueIsZero: (Expr, nat) -> bool, x0: Index, x1: Index, w: nat,
               l0: Linear, l1: Linear)
    requires Typed(xs) && xs == [x0, x1] && w == Width(x1.v) && WellTyped(x0.v) && WellTyped(x1.v)
    requires l0 == Decompose(x0.v, 0, true, true, w, maskedValueIsZero)
    requires l1 == Decompose(x1.v, 0, true, true, w, maskedValueIsZero)
    ensures PairDifference(xs, maskedValueIsZero) == (l0.offset - l1.offset) % Pow2(w)
    ensures IsPair(xs, equal, maskedValueIsZero) <==>
              && x0.scale == 0 - x1.scale && x0.zextBits == x1.zextBits && x0.sextBits == x1.sextBits
              && l0.scale == l1.scale && l0.zextBits == l1.zextBits && equal(l0.base, l1.base)
  {
  }

  /** In numbers: the rule says yes exactly if the decompositions agree but for their offsets, and both
      accesses, each with the distance of the bases, fit into the smaller of the two distances modulo
      2^w that the variables can have. */
  lemma FarApartIs(xs: seq<Index>, size1: nat, size2: nat, baseOffset: int, equal: Equality,
                   maskedValueIsZero: (Expr, nat) -> bool, x0: Index, x1: Index, w: nat, l0: Linear, l1: Linear)
    requires Typed(xs) && xs == [x0, x1] && w == Width(x1.v) && WellTyped(x0.v) && WellTyped(x1.v)
    requires l0 == Decompose(x0.v, 0, true, true, w, maskedValueIsZero)
    requires l1 == Decompose(x1.v, 0, true, true, w, maskedValueIsZero)
    ensures var d := (l0.offset - l1.offset) % Pow2(w);
            var s, o := if x0.scale < 0 then 0 - x0.scale else x0.scale,
                        if baseOffset < 0 then 0 - baseOffset else baseOffset;
            var gap := (if d <= Pow2(w) - d then d else Pow2(w) - d) * s % U64;
            FarApart(xs, size1, size2, baseOffset, equal, maskedValueIsZero) <==>
              && size1 != UNKNOWN_SIZE && size2 != UNKNOWN_SIZE && x0.scale == 0 - x1.scale
              && x0.zextBits == x1.zextBits && x0.sextBits == x1.sextBits
              && l0.scale == l1.scale && l0.zextBits == l1.zextBits && equal(l0.base, l1.base)
              && (size1 + o) % U64 <= gap && (size2 + o) % U64 <= gap
  {
    PairIs(xs, equal, maskedValueIsZero, x0, x1, w, l0, l1);
    FitsIntoGapIs(size1, size2, baseOffset, (l0.offset - l1.offset) % Pow2(w), w, x0.scale);
  }

  method ConstantOffsetHeuristic(xs: seq<Index>, size1: nat, size2: nat, baseOffset: int, equal: Equality,
                                 maskedValueIsZero: (Expr, nat) -> bool) returns (r: bool)
    requires Typed(xs)
    ensures r <==> FarApart(xs, size1, size2, baseOffset, equal, maskedValueIsZero)
  {
    if |xs| != 2 || size1 == UNKNOWN_SIZE || size2 == UNKNOWN_SIZE {
      return false;
    }
    var x0, x1 := xs[0], xs[1];
    if x0.zextBits != x1.zextBits || x0.sextBits != x1.sextBits || x0.scale != 0 - x1.scale {
      return false;
    }
    var w := Width(x1.v);
    var b0, s0, o0, z0, nsw0, nuw0 := GetLinearExpression(x0.v, 0, 0, 0, 0, true, true, w, maskedValueIsZero);
    var b1, s1, o1, z1, nsw1, nuw1 := GetLinearExpression(x1.v, 0, 0, 0, 0, true, true, w, maskedValueIsZero);
    if s0 != s1 || z0 != z1 || !equal(b0, b1) {
      return false;
    }
    var minDiff := (o0 - o1) % Pow2(w);
    var wrapped := (0 - minDiff) % Pow2(w);
    NegativeRemainder(minDiff, Pow2(w));
    if wrapped < minDiff {
      minDiff := wrapped;
    }
    var minDiffBytes := minDiff * Abs(x0.scale) % U64;
    r := (size1 + Abs(baseOffset)) % U64 <= minDiffBytes && (size2 + Abs(baseOffset)) % U64 <= minDiffBytes;
  }

  lemma NegativeRemainder(d: nat, m: nat)
    requires d < m
    ensures (0 - d) % m == if d == 0 then 0 else m - d
  {
  }

  // ---- it is right over the integers, unless the sums wrap

  /** The sums do not wrap. */
  predicate SumsFit(size1: nat, size2: nat, baseOffset: int) {
    size1 + Abs(baseOffset) < U64 && size2 + Abs(baseOffset) < U64
  }

  /** The test says what it should exactly if the sums do not wrap. */
  lemma FitsOnlyWithoutWrapping(size1: nat, size2: nat, baseOffset: int, gap: nat)
    requires FitsIntoGap(size1, size2, baseOffset, gap) && gap < U64
    ensures size1 + Abs(baseOffset) <= gap && size2 + Abs(baseOffset) <= gap <==> SumsFit(size1, size2, baseOffset)
  {
  }

  lemma PairForm(xs: seq<Index>, value: Valuation)
    requires |xs| == 2 && xs[0].scale == 0 - xs[1].scale
    ensures Form(xs, value) == xs[0].scale * (ValueOf(xs[0].v, xs[0].zextBits, xs[0].sextBits, value)
                                              - ValueOf(xs[1].v, xs[1].zextBits, xs[1].sextBits, value))
  {
    var s, x, y := xs[0].scale, ValueOf(xs[0].v, xs[0].zextBits, xs[0].sextBits, value),
                   ValueOf(xs[1].v, xs[1].zextBits, xs[1].sextBits, value);
    assert xs == [xs[0]] + [xs[1]];
    FormAppend([xs[0]], xs[1], value);
    SingleForm(xs[0], value);
    assert xs[1].scale * y == -(s * y);
    assert s * (x - y) == s * x - s * y;
  }

  /** A variable, extended, modulo 2 to its width, as a linear form. */
  lemma VariableForm(v: Expr, z: nat, x: nat, l: Linear, value: Valuation, env: Env, equal: Equality)
    requires WellTyped(v) && IsLinear(v, l, Width(v)) && Extends(value, env, equal) && Defined(v, env)
    ensures Congruent(ValueOf(v, z, x, value), Eval(v, env), Pow2(Width(v)))
    ensures Congruent(Eval(v, env), l.scale * Eval(l.base, env) + l.offset, Pow2(Width(v))) && Defined(l.base, env)
  {
    assert Means(v, env, l.base, l.scale, l.offset, Width(v), l.nuw);
  }

  /** In every state the variables of a pair differ by what the decompositions tell. */
  lemma PairDiffers(xs: seq<Index>, equal: Equality, maskedValueIsZero: (Expr, nat) -> bool, value: Valuation, env: Env)
    requires Typed(xs) && IsPair(xs, equal, maskedValueIsZero) && Width(xs[0].v) == Width(xs[1].v)
    requires Knows(maskedValueIsZero) && IsState(xs, value, env, equal)
    ensures Congruent(ValueOf(xs[0].v, xs[0].zextBits, xs[0].sextBits, value)
                      - ValueOf(xs[1].v, xs[1].zextBits, xs[1].sextBits, value),
                      PairDifference(xs, maskedValueIsZero), Pow2(Width(xs[1].v)))
  {
    var x0, x1, w := xs[0], xs[1], Width(xs[1].v);
    var l0 := Decompose(x0.v, 0, true, true, w, maskedValueIsZero);
    var l1 := Decompose(x1.v, 0, true, true, w, maskedValueIsZero);
    DecomposeIsLinear(x0.v, 0, true, true, w, maskedValueIsZero);
    DecomposeIsLinear(x1.v, 0, true, true, w, maskedValueIsZero);
    VariableForm(x0.v, x0.zextBits, x0.sextBits, l0, value, env, equal);
    VariableForm(x1.v, x1.zextBits, x1.sextBits, l1, value, env, equal);
    assert Eval(l0.base, env) == Eval(l1.base, env);
    ExtendedDifference(ValueOf(x0.v, x0.zextBits, x0.sextBits, value), ValueOf(x1.v, x1.zextBits, x1.sextBits, value),
                       Eval(x0.v, env), Eval(x1.v, env), l0.scale, Eval(l0.base, env), l0.offset, l1.offset, w);
  }

  lemma ExtendedDifference(x: int, y: int, a: int, b: int, s: int, v: int, o0: int, o1: int, w: nat)
    requires Congruent(x, a, Pow2(w)) && Congruent(y, b, Pow2(w))
    requires Congruent(a, s * v + o0, Pow2(w)) && Congruent(b, s * v + o1, Pow2(w))
    ensures Congruent(x - y, (o0 - o1) % Pow2(w), Pow2(w))
  {
    FormsDifferByOffsets(a, b, s, v, o0, o1, w);
    CongruentSum(x, a, y, b, Pow2(w));
    CongruentTransitive(x - y, a - b, (o0 - o1) % Pow2(w), Pow2(w));
  }

  lemma WrappedIsSmaller(a: nat, b: nat)
    ensures a * b % U64 <= b * a
  {
    QuotientBounds(a * b, U64, a * b / U64);
    assert a * b == b * a;
  }

  /** If the rule answers yes and the sums do not wrap, the accesses are apart in every state. */
  lemma FarApartIsApart(xs: seq<Index>, size1: nat, size2: nat, baseOffset: int, equal: Equality,
                        maskedValueIsZero: (Expr, nat) -> bool, value: Valuation, env: Env)
    requires Typed(xs) && SameWidths(xs) && FarApart(xs, size1, size2, baseOffset, equal, maskedValueIsZero)
    requires Knows(maskedValueIsZero) && IsState(xs, value, env, equal) && SumsFit(size1, size2, baseOffset)
    ensures Apart(baseOffset + Form(xs, value), size1, size2)
  {
    var w, d, s := Width(xs[1].v), PairDifference(xs, maskedValueIsZero), xs[0].scale;
    var x, y := ValueOf(xs[0].v, xs[0].zextBits, xs[0].sextBits, value),
                ValueOf(xs[1].v, xs[1].zextBits, xs[1].sextBits, value);
    PairDiffers(xs, equal, maskedValueIsZero, value, env);
    MinDistanceIsLeast(x, y, d, w);
    AbsProduct(s, x - y, MinDistance(d, w));
    PairForm(xs, value);
    WrappedIsSmaller(MinDistance(d, w), Abs(s));
    FitsOnlyWithoutWrapping(size1, size2, baseOffset, Gap(d, w, s));
  }
}
