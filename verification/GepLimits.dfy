/** How far the rule for two variables can be trusted: exactly when its answer is right, and inputs
    for which it is not. */
module GepLimits {
  import opened Powers
  import opened Bits
  import opened LinearExpressions
  import opened GepIndices
  import opened GepStates
  import opened GepDistance
  import opened GepHeuristic

  /** In every program state the accesses are apart over the integers. */
  ghost predicate AlwaysApart(xs: seq<Index>, size1: nat, size2: nat, baseOffset: int, equal: Equality)
    requires Typed(xs)
  {
    forall value, env: Env {:trigger IsState(xs, value, env, equal)} ::
      IsState(xs, value, env, equal) && Narrow(value) ==> Apart(baseOffset + Form(xs, value), size1, size2)
  }

  /** In every program state they are apart at addresses of 64 bits. */
  ghost predicate AlwaysApartModulo(xs: seq<Index>, size1: nat, size2: nat, baseOffset: int, equal: Equality)
    requires Typed(xs)
  {
    forall value, env: Env {:trigger IsState(xs, value, env, equal)} ::
      IsState(xs, value, env, equal) && Narrow(value) ==> ApartModulo(baseOffset + Form(xs, value), size1, size2)
  }

  /** The list has a given value in some state. */
  ghost predicate Occurs(xs: seq<Index>, form: int, equal: Equality)
    requires Typed(xs)
  {
    exists value, env: Env {:trigger IsState(xs, value, env, equal)} ::
      IsState(xs, value, env, equal) && Narrow(value) && Form(xs, value) == form
  }

  // ---- exactly when accesses are apart at addresses of 64 bits

  /** The place of the first access, modulo 2^64, lies behind the second one with room left. */
  predicate Clear(delta: int, size1: nat, size2: nat) {
    size1 == 0 || size2 == 0 || size2 <= delta % U64 <= U64 - size1
  }

  lemma ApartModuloIffClear(delta: int, size1: nat, size2: nat)
    ensures ApartModulo(delta, size1, size2) <==> Clear(delta, size1, size2)
  {
    var r := delta % U64;
    RemainderIsCongruent(delta, U64);
    CongruentSymmetric(r, delta, U64);
    if Clear(delta, size1, size2) {
      if size1 > 0 && size2 > 0 {
        ApartWithinMemory(r, size1, size2);
        ApartModuloDistance(delta, r, size1, size2);
      }
    } else {
      var i, j := if r < size2 then 0 else U64 - r, if r < size2 then r else 0;
      CongruentBy(r + i, j, U64, if r < size2 then 0 else 1);
      CongruentSelf(i, U64);
      CongruentSum(delta, r, i, i, U64);
      CongruentTransitive(delta + i, r + i, j, U64);
      assert Meets(delta, i, j);
    }
  }

  // ---- two variables that differ by a constant

  lemma OneOfTwo(x: int, y: int, d: nat, w: nat, z: nat)
    requires w > 0 && d < Pow2(w) && ValueInRange(x, w, z) && ValueInRange(y, w, z) && Congruent(x - y, d, Pow2(w))
    ensures x - y == d || x - y == d - Pow2(w)
  {
    if x >= y {
      CongruentIsEqual(x - y, d, Pow2(w));
    } else {
      CongruentBy(x - y + Pow2(w), x - y, Pow2(w), 1);
      CongruentTransitive(x - y + Pow2(w), x - y, d, Pow2(w));
      CongruentIsEqual(x - y + Pow2(w), d, Pow2(w));
    }
  }

  /** A pair has one of two values. */
  lemma PairValue(xs: seq<Index>, equal: Equality, maskedValueIsZero: (Expr, nat) -> bool, value: Valuation, env: Env)
    requires Typed(xs) && SameWidths(xs) && IsPair(xs, equal, maskedValueIsZero) && Knows(maskedValueIsZero)
    requires IsState(xs, value, env, equal) && Narrow(value)
    ensures var d, s := PairDifference(xs, maskedValueIsZero), xs[0].scale;
            Form(xs, value) == s * d || Form(xs, value) == s * (d - Pow2(Width(xs[1].v)))
  {
    var x0, x1 := xs[0], xs[1];
    PairDiffers(xs, equal, maskedValueIsZero, value, env);
    PairForm(xs, value);
    OneOfTwo(ValueOf(x0.v, x0.zextBits, x0.sextBits, value), ValueOf(x1.v, x1.zextBits, x1.sextBits, value),
             PairDifference(xs, maskedValueIsZero), Width(x1.v), x0.zextBits);
  }

  /** The list has these values and no others. */
  ghost predicate HasTwoValues(xs: seq<Index>, f: int, g: int, equal: Equality)
    requires Typed(xs)
  {
    && Occurs(xs, f, equal) && Occurs(xs, g, equal)
    && forall value, env: Env {:trigger IsState(xs, value, env, equal)} ::
         IsState(xs, value, env, equal) && Narrow(value) ==> Form(xs, value) == f || Form(xs, value) == g
  }

  /** What the two values of a pair are. */
  predicate AreValues(xs: seq<Index>, f: int, g: int, maskedValueIsZero: (Expr, nat) -> bool)
    requires Typed(xs) && |xs| == 2
  {
    var d, s := PairDifference(xs, maskedValueIsZero), xs[0].scale;
    f == s * d && g == s * (d - Pow2(Width(xs[1].v)))
  }

  lemma PairHasTwoValues(xs: seq<Index>, f: int, g: int, equal: Equality, maskedValueIsZero: (Expr, nat) -> bool)
    requires Typed(xs) && SameWidths(xs) && IsPair(xs, equal, maskedValueIsZero) && Knows(maskedValueIsZero)
    requires AreValues(xs, f, g, maskedValueIsZero) && Occurs(xs, f, equal) && Occurs(xs, g, equal)
    ensures HasTwoValues(xs, f, g, equal)
  {
    forall value, env: Env | IsState(xs, value, env, equal) && Narrow(value)
      ensures Form(xs, value) == f || Form(xs, value) == g
    {
      PairValue(xs, equal, maskedValueIsZero, value, env);
    }
  }

  /** A list with two values keeps the accesses apart exactly if both do, as integers and at
      addresses of 64 bits. */
  lemma TwoValuesApartIff(xs: seq<Index>, f: int, g: int, size1: nat, size2: nat, baseOffset: int, equal: Equality)
    requires Typed(xs) && HasTwoValues(xs, f, g, equal)
    ensures AlwaysApartModulo(xs, size1, size2, baseOffset, equal)
       <==> Clear(baseOffset + f, size1, size2) && Clear(baseOffset + g, size1, size2)
    ensures AlwaysApart(xs, size1, size2, baseOffset, equal)
       <==> Apart(baseOffset + f, size1, size2) && Apart(baseOffset + g, size1, size2)
  {
    ApartModuloIffClear(baseOffset + f, size1, size2);
    ApartModuloIffClear(baseOffset + g, size1, size2);
  }

  /** Over the integers, if the rule says yes about a pair that has both values, it is right exactly
      if the sums do not wrap. */
  lemma FarApartRightIff(xs: seq<Index>, f: int, g: int, size1: nat, size2: nat, baseOffset: int, equal: Equality,
                         maskedValueIsZero: (Expr, nat) -> bool)
    requires Typed(xs) && SameWidths(xs) && FarApart(xs, size1, size2, baseOffset, equal, maskedValueIsZero)
    requires Knows(maskedValueIsZero) && AreValues(xs, f, g, maskedValueIsZero)
    requires Occurs(xs, f, equal) && Occurs(xs, g, equal)
    requires 0 < size1 < U64 && 0 < size2 < U64 && xs[0].scale != 0
    requires Abs(xs[0].scale) * Pow2(Width(xs[1].v)) + 2 * Abs(baseOffset) <= U64
    ensures AlwaysApart(xs, size1, size2, baseOffset, equal) <==> SumsFit(size1, size2, baseOffset)
  {
    if SumsFit(size1, size2, baseOffset) {
      forall value, env: Env | IsState(xs, value, env, equal) && Narrow(value)
        ensures Apart(baseOffset + Form(xs, value), size1, size2)
      {
        FarApartIsApart(xs, size1, size2, baseOffset, equal, maskedValueIsZero, value, env);
      }
    } else {
      var d, s, w := PairDifference(xs, maskedValueIsZero), xs[0].scale, Width(xs[1].v);
      PairIsNear(d, w, s, f, g);
      GapIsExact(d, w, s);
      OneOverlaps(f, g, Abs(s) * Pow2(w), Gap(d, w, s), size1, size2, baseOffset);
    }
  }

  /** The two values lie on both sides of zero, less than |s| * 2^w apart from it. */
  lemma PairIsNear(d: nat, w: nat, s: int, f: int, g: int)
    requires d < Pow2(w) && s != 0 && f == s * d && g == s * (d - Pow2(w))
    ensures (f >= 0 >= g || f <= 0 <= g) && Abs(f) < Abs(s) * Pow2(w) && (f != 0 ==> Abs(g) < Abs(s) * Pow2(w))
    ensures MinDistance(d, w) * Abs(s) <= Abs(f) && MinDistance(d, w) * Abs(s) <= Abs(g)
  {
    var e: nat := Pow2(w) - d;
    assert d - Pow2(w) == 0 - e;
    AbsTimes(s, d, f);
    AbsTimes(s, e, 0 - g) by {
      assert s * (0 - e) == 0 - s * e;
    }
    StrictlyLess(d, Pow2(w), Abs(s));
    StrictlyLess(e, Pow2(w), Abs(s));
    MulMonotone(MinDistance(d, w), d, Abs(s));
    MulMonotone(MinDistance(d, w), e, Abs(s));
  }

  lemma StrictlyLess(d: nat, p: nat, a: nat)
    requires a > 0
    ensures d < p ==> d * a < a * p
  {
  }

  lemma AbsTimes(s: int, d: nat, f: int)
    requires f == s * d
    ensures Abs(f) == d * Abs(s) && (s >= 0 ==> f >= 0) && (s <= 0 ==> f <= 0) && (s != 0 && d > 0 ==> f != 0)
  {
    if s < 0 {
      assert d * -s == -(s * d);
    }
  }

  lemma GapIsExact(d: nat, w: nat, s: int)
    requires d < Pow2(w) && s != 0 && Abs(s) * Pow2(w) <= U64
    ensures Gap(d, w, s) == MinDistance(d, w) * Abs(s)
  {
    StrictlyLess(MinDistance(d, w), Pow2(w), Abs(s));
    QuotientIs(MinDistance(d, w) * Abs(s), U64, 0, MinDistance(d, w) * Abs(s));
  }

  lemma OneOverlaps(f: int, g: int, span: nat, gap: nat, size1: nat, size2: nat, baseOffset: int)
    requires (f >= 0 >= g || f <= 0 <= g) && Abs(f) < span && (f != 0 ==> Abs(g) < span)
    requires gap <= Abs(f) && gap <= Abs(g) && FitsIntoGap(size1, size2, baseOffset, gap)
    requires 0 < size1 < U64 && 0 < size2 < U64 && span + 2 * Abs(baseOffset) <= U64
    requires !SumsFit(size1, size2, baseOffset)
    ensures !Apart(baseOffset + f, size1, size2) || !Apart(baseOffset + g, size1, size2)
  {
    if f == 0 {
      assert size1 + Abs(baseOffset) == U64 && size2 + Abs(baseOffset) == U64;
    }
  }

  // ---- a variable, and the same variable plus a constant

  function PlusConstant(id: nat, w: nat, c: nat): Expr {
    Bin(Add, Var(id, w), Const(c, w), false, false)
  }

  /** Scaled and with opposite signs. */
  function OffsetPair(id: nat, w: nat, c: nat, zextBits: nat, sextBits: nat, scale: int): seq<Index> {
    [Index(Var(id, w), zextBits, sextBits, scale), Index(PlusConstant(id, w, c), zextBits, sextBits, 0 - scale)]
  }

  lemma OffsetPairIsPair(id: nat, w: nat, c: nat, zextBits: nat, sextBits: nat, scale: int,
                         maskedValueIsZero: (Expr, nat) -> bool)
    requires 0 < w && 0 < c < Pow2(w)
    ensures var xs := OffsetPair(id, w, c, zextBits, sextBits, scale);
            Typed(xs) && SameWidths(xs) && IsPair(xs, Same(), maskedValueIsZero)
            && PairDifference(xs, maskedValueIsZero) == Pow2(w) - c
  {
    var xs, y := OffsetPair(id, w, c, zextBits, sextBits, scale), PlusConstant(id, w, c);
    assert WellTyped(y.left) && WellTyped(y.right) && WellTyped(y);
    assert Decompose(y.left, 1, true, true, w, maskedValueIsZero) == Itself(y.left, true, true);
    QuotientIs(c, Pow2(w), 0, c);
    assert Decompose(y, 0, true, true, w, maskedValueIsZero) == Linear(Var(id, w), 1, c, 0, false, false);
    NegativeRemainder(c, Pow2(w));
  }

  function Only(id: nat, u: nat): Env {
    i => if i == id then u else 0
  }

  lemma WrapsAt(u: nat, c: nat, m: nat)
    requires u < m && c < m
    ensures (u + c) % m == if u + c < m then u + c else u + c - m
  {
    QuotientIs(u + c, m, if u + c < m then 0 else 1, if u + c < m then u + c else u + c - m);
  }

  lemma PlusConstantAt(id: nat, w: nat, c: nat, u: nat)
    requires 0 < w && 0 < c < Pow2(w) && u < Pow2(w)
    ensures var v, e, env := Var(id, w), PlusConstant(id, w, c), Only(id, u);
            && WellTyped(v) && WellTyped(e) && Defined(v, env) && Defined(e, env)
            && Eval(v, env) == u && Eval(e, env) == if u + c < Pow2(w) then u + c else u + c - Pow2(w)
  {
    var e, env := PlusConstant(id, w, c), Only(id, u);
    assert WellTyped(e.left) && WellTyped(e.right) && WellTyped(e);
    QuotientIs(u, Pow2(w), 0, u);
    assert Eval(e.left, env) == u && Eval(e.right, env) == c;
    WrapsAt(u, c, Pow2(w));
    assert Defined(e.left, env) && Defined(e.right, env);
  }

  lemma OffsetPairIsState(id: nat, w: nat, c: nat, zextBits: nat, sextBits: nat, scale: int, u: nat)
    requires 0 < w && 0 < c < Pow2(w) && u < Pow2(w)
    ensures var xs, env := OffsetPair(id, w, c, zextBits, sextBits, scale), Only(id, u);
            Typed(xs) && IsState(xs, Extended(env), env, Same()) && Narrow(Extended(env))
  {
    PlusConstantAt(id, w, c, u);
    ExtendedIsState(OffsetPair(id, w, c, zextBits, sextBits, scale), Only(id, u));
  }

  lemma OffsetPairForm(id: nat, w: nat, c: nat, zextBits: nat, sextBits: nat, scale: int, value: Valuation, diff: int)
    requires ValueOf(Var(id, w), zextBits, sextBits, value)
             - ValueOf(PlusConstant(id, w, c), zextBits, sextBits, value) == diff
    ensures Form(OffsetPair(id, w, c, zextBits, sextBits, scale), value) == scale * diff
  {
    PairForm(OffsetPair(id, w, c, zextBits, sextBits, scale), value);
  }

  /** The value of the pair if the variable is u and the sum y. */
  lemma OffsetPairAt(id: nat, w: nat, c: nat, zextBits: nat, sextBits: nat, scale: int, u: nat, y: nat, diff: int)
    requires 0 < w && 0 < c < Pow2(w) && u < Pow2(w) && y == if u + c < Pow2(w) then u + c else u + c - Pow2(w)
    requires diff == if zextBits > 0 then u - y else Signed(u, w) - Signed(y, w)
    ensures var xs := OffsetPair(id, w, c, zextBits, sextBits, scale);
            Typed(xs) && Occurs(xs, scale * diff, Same())
  {
    var env := Only(id, u);
    PlusConstantAt(id, w, c, u);
    OffsetPairForm(id, w, c, zextBits, sextBits, scale, Extended(env), diff);
    OffsetPairIsState(id, w, c, zextBits, sextBits, scale, u);
  }

  /** The two differences of the variables, d and e, do occur. */
  lemma OffsetPairOccurs(id: nat, w: nat, c: nat, zextBits: nat, sextBits: nat, scale: int, d: nat, e: int)
    requires 0 < w && 0 < c < Pow2(w) && d == Pow2(w) - c && e == 0 - c
    ensures var xs := OffsetPair(id, w, c, zextBits, sextBits, scale);
            Typed(xs) && Occurs(xs, scale * d, Same()) && Occurs(xs, scale * e, Same())
  {
    var p, h := Pow2(w), Pow2(w - 1);
    if zextBits > 0 {
      OffsetPairAt(id, w, c, zextBits, sextBits, scale, p - c, 0, d);
      OffsetPairAt(id, w, c, zextBits, sextBits, scale, 0, c, e);
    } else {
      OffsetPairAt(id, w, c, zextBits, sextBits, scale, if c <= h then h - c else p + h - c, h, d);
      OffsetPairAt(id, w, c, zextBits, sextBits, scale, h, if c < h then h + c else h + c - p, e);
    }
  }

  function NothingKnown(): (Expr, nat) -> bool {
    (v, c) => false
  }

  lemma OffsetPairValues(id: nat, w: nat, c: nat, zextBits: nat, sextBits: nat, scale: int, d: nat, e: int, f: int,
                         g: int)
    requires 0 < w && 0 < c < Pow2(w) && d == Pow2(w) - c && e == 0 - c && f == scale * d && g == scale * e
    ensures var xs := OffsetPair(id, w, c, zextBits, sextBits, scale);
            Typed(xs) && SameWidths(xs) && AreValues(xs, f, g, NothingKnown())
  {
    var xs := OffsetPair(id, w, c, zextBits, sextBits, scale);
    OffsetPairIsPair(id, w, c, zextBits, sextBits, scale, NothingKnown());
    assert PairDifference(xs, NothingKnown()) == d && d - Pow2(Width(xs[1].v)) == e;
  }

  lemma OffsetPairHasTwoValues(id: nat, w: nat, c: nat, zextBits: nat, sextBits: nat, scale: int, d: nat, e: int)
    requires 0 < w && 0 < c < Pow2(w) && d == Pow2(w) - c && e == 0 - c
    ensures var xs := OffsetPair(id, w, c, zextBits, sextBits, scale);
            && Typed(xs) && SameWidths(xs) && AreValues(xs, scale * d, scale * e, NothingKnown())
            && HasTwoValues(xs, scale * d, scale * e, Same())
  {
    var xs := OffsetPair(id, w, c, zextBits, sextBits, scale);
    OffsetPairIsPair(id, w, c, zextBits, sextBits, scale, NothingKnown());
    OffsetPairOccurs(id, w, c, zextBits, sextBits, scale, d, e);
    OffsetPairValues(id, w, c, zextBits, sextBits, scale, d, e, scale * d, scale * e);
    PairHasTwoValues(xs, scale * d, scale * e, Same(), NothingKnown());
  }

  /** So for x and x + c, of any width and extended in any way, the answer is right over the integers
      exactly if the sums do not wrap. */
  lemma OffsetPairRightIff(id: nat, w: nat, c: nat, zextBits: nat, sextBits: nat, scale: int,
                           size1: nat, size2: nat, baseOffset: int)
    requires 0 < w && 0 < c < Pow2(w) && scale != 0 && 0 < size1 < U64 && 0 < size2 < U64
    requires Abs(scale) * Pow2(w) + 2 * Abs(baseOffset) <= U64
    ensures var xs := OffsetPair(id, w, c, zextBits, sextBits, scale);
            && Typed(xs)
            && (FarApart(xs, size1, size2, baseOffset, Same(), NothingKnown()) ==>
                  (AlwaysApart(xs, size1, size2, baseOffset, Same()) <==> SumsFit(size1, size2, baseOffset)))
  {
    var xs := OffsetPair(id, w, c, zextBits, sextBits, scale);
    OffsetPairIsPair(id, w, c, zextBits, sextBits, scale, NothingKnown());
    var d: nat, e: int := Pow2(w) - c, 0 - c as int;
    OffsetPairHasTwoValues(id, w, c, zextBits, sextBits, scale, d, e);
    if FarApart(xs, size1, size2, baseOffset, Same(), NothingKnown()) {
      FarApartRightIff(xs, scale * d, scale * e, size1, size2, baseOffset, Same(), NothingKnown());
    }
  }

  /** At addresses of 64 bits x and x + c keep the accesses apart exactly if both distances, modulo
      2^64, leave room; no size is too large for this. */
  lemma OffsetPairApartIff(id: nat, w: nat, c: nat, zextBits: nat, sextBits: nat, scale: int,
                           size1: nat, size2: nat, baseOffset: int, d: nat, e: int)
    requires 0 < w && 0 < c < Pow2(w) && d == Pow2(w) - c && e == 0 - c
    ensures var xs := OffsetPair(id, w, c, zextBits, sextBits, scale);
            && Typed(xs)
            && (AlwaysApartModulo(xs, size1, size2, baseOffset, Same()) <==>
                  Clear(baseOffset + scale * d, size1, size2) && Clear(baseOffset + scale * e, size1, size2))
  {
    OffsetPairHasTwoValues(id, w, c, zextBits, sextBits, scale, d, e);
    TwoValuesApartIff(OffsetPair(id, w, c, zextBits, sextBits, scale), scale * d, scale * e,
                      size1, size2, baseOffset, Same());
  }

  lemma OffsetPairFarApart(id: nat, w: nat, c: nat, zextBits: nat, sextBits: nat, scale: int,
                           size1: nat, size2: nat, baseOffset: int, gap: nat)
    requires 0 < w && 0 < c < Pow2(w) && size1 < UNKNOWN_SIZE && size2 < UNKNOWN_SIZE
    requires gap == (if c <= Pow2(w) - c then c else Pow2(w) - c) * Abs(scale) < U64
    ensures var xs := OffsetPair(id, w, c, zextBits, sextBits, scale);
            && Typed(xs)
            && (FarApart(xs, size1, size2, baseOffset, Same(), NothingKnown()) <==>
                  FitsIntoGap(size1, size2, baseOffset, gap))
  {
    OffsetPairIsPair(id, w, c, zextBits, sextBits, scale, NothingKnown());
    QuotientIs(gap, U64, 0, gap);
  }

  /** The sums do wrap: x and x + 3 of 32 bits, 2 bytes apart.  The rule says yes, though the first
      access, of all but two bytes of the memory, covers the second one in some state. */
  lemma WrappingIsWrong(id: nat)
    ensures var xs := OffsetPair(id, 32, 3, 0, 32, 1);
            && Typed(xs) && FarApart(xs, 0xFFFF_FFFF_FFFF_FFFE, 1, 2, Same(), NothingKnown())
            && !AlwaysApart(xs, 0xFFFF_FFFF_FFFF_FFFE, 1, 2, Same())
  {
    Pow2Is64();
    OffsetPairFarApart(id, 32, 3, 0, 32, 1, 0xFFFF_FFFF_FFFF_FFFE, 1, 2, 3);
    OffsetPairRightIff(id, 32, 3, 0, 32, 1, 0xFFFF_FFFF_FFFF_FFFE, 1, 2);
  }

  /** The product of scale and difference does wrap: five times x and five times x + 2^64 / 5.  The
      rule says yes, rightly over the integers, but the addresses are one byte apart. */
  lemma NearInMemory(id: nat)
    ensures var xs := OffsetPair(id, 64, 0x3333_3333_3333_3333, 0, 0, 5);
            && Typed(xs) && FarApart(xs, 8, 8, 0, Same(), NothingKnown()) && SumsFit(8, 8, 0)
            && AlwaysApart(xs, 8, 8, 0, Same()) && !AlwaysApartModulo(xs, 8, 8, 0, Same())
  {
    Pow2Is64();
    OffsetPairFarApart(id, 64, 0x3333_3333_3333_3333, 0, 0, 5, 8, 8, 0, 0xFFFF_FFFF_FFFF_FFFF);
    OffsetPairApartIff(id, 64, 0x3333_3333_3333_3333, 0, 0, 5, 8, 8, 0, 0xCCCC_CCCC_CCCC_CCCD, -0x3333_3333_3333_3333);
    OffsetPairAlwaysApart(id, 64, 0x3333_3333_3333_3333, 0, 0, 5, 8, 8, 0);
  }

  lemma OffsetPairAlwaysApart(id: nat, w: nat, c: nat, zextBits: nat, sextBits: nat, scale: int,
                              size1: nat, size2: nat, baseOffset: int)
    requires 0 < w && 0 < c < Pow2(w) && SumsFit(size1, size2, baseOffset)
    requires Typed(OffsetPair(id, w, c, zextBits, sextBits, scale))
    requires FarApart(OffsetPair(id, w, c, zextBits, sextBits, scale), size1, size2, baseOffset, Same(), NothingKnown())
    ensures AlwaysApart(OffsetPair(id, w, c, zextBits, sextBits, scale), size1, size2, baseOffset, Same())
  {
    var xs := OffsetPair(id, w, c, zextBits, sextBits, scale);
    OffsetPairIsPair(id, w, c, zextBits, sextBits, scale, NothingKnown());
    forall value, env: Env | IsState(xs, value, env, Same()) && Narrow(value)
      ensures Apart(baseOffset + Form(xs, value), size1, size2)
    {
      FarApartIsApart(xs, size1, size2, baseOffset, Same(), NothingKnown(), value, env);
    }
  }
}
