/** When two addresses with the same base and different variable indices cannot alias. */
module GepAliasing {
  import opened Powers
  import opened Bits
  import opened LinearExpressions
  import opened GepIndices
  import opened GepStates
  import opened GepDistance
  import opened GepHeuristic

  datatype AliasResult = NoAlias | PartialAlias | MustAlias

  // ---- variables that are not negative

  predicate ZeroExtended(v: Expr, zextBits: nat) {
    zextBits > 0 || v.ZExt?
  }

  /** What is known about the signs of variables is right; what has been zero-extended is not negative. */
  ghost predicate SignsRight(value: Valuation, knownZero: Expr -> bool, knownOne: Expr -> bool) {
    && (forall v, z, s :: knownZero(v) || ZeroExtended(v, z) ==> ValueOf(v, z, s, value) >= 0)
    && (forall v, z, s :: knownOne(v) && !ZeroExtended(v, z) ==> ValueOf(v, z, s, value) <= 0)
  }

  predicate TermNotNegative(x: Index, knownZero: Expr -> bool, knownOne: Expr -> bool) {
    || ((knownZero(x.v) || ZeroExtended(x.v, x.zextBits)) && x.scale >= 0)
    || (knownOne(x.v) && !ZeroExtended(x.v, x.zextBits) && x.scale < 0)
  }

  predicate NoneNegative(xs: seq<Index>, knownZero: Expr -> bool, knownOne: Expr -> bool) {
    forall i :: 0 <= i < |xs| ==> TermNotNegative(xs[i], knownZero, knownOne)
  }

  lemma ProductSign(a: int, b: int)
    requires (a >= 0 && b >= 0) || (a <= 0 && b <= 0)
    ensures a * b >= 0
  {
  }

  lemma {:induction false} FormNotNegative(xs: seq<Index>, value: Valuation, knownZero: Expr -> bool,
                                           knownOne: Expr -> bool)
    requires SignsRight(value, knownZero, knownOne) && NoneNegative(xs, knownZero, knownOne)
    ensures Form(xs, value) >= 0
  {
    if xs != [] {
      var x := xs[|xs| - 1];
      FormNotNegative(xs[..|xs| - 1], value, knownZero, knownOne);
      assert TermNotNegative(x, knownZero, knownOne);
      ProductSign(x.scale, ValueOf(x.v, x.zextBits, x.sextBits, value));
    }
  }

  method AllPositive(xs: seq<Index>, knownZero: Expr -> bool, knownOne: Expr -> bool) returns (r: bool)
    ensures r <==> NoneNegative(xs, knownZero, knownOne)
  {
    for i := 0 to |xs|
      invariant forall k :: 0 <= k < i ==> TermNotNegative(xs[k], knownZero, knownOne)
    {
      if !TermNotNegative(xs[i], knownZero, knownOne) {
        return false;
      }
    }
    return true;
  }

  /** The rule for such variables: the second access ends before the offset. */
  predicate StaysBehind(xs: seq<Index>, size2: nat, baseOffset: int, knownZero: Expr -> bool, knownOne: Expr -> bool) {
    NoneNegative(xs, knownZero, knownOne) && baseOffset > 0 && size2 <= baseOffset
  }

  // ---- addresses that are a constant apart

  function ConstantVerdict(size1: nat, size2: nat, baseOffset: int): AliasResult {
    if (if baseOffset >= 0 then size2 != UNKNOWN_SIZE && size2 <= baseOffset
        else size1 != UNKNOWN_SIZE && size2 != UNKNOWN_SIZE && size1 <= -baseOffset) then NoAlias
    else PartialAlias
  }

  /** Nothing is claimed of accesses that do overlap, and for known sizes nothing is missed.  If the
      second size is not known nothing is claimed at all, and if only the first is not, then just of an
      access that starts at or behind the end of the second one. */
  lemma ConstantVerdictIsApart(size1: nat, size2: nat, baseOffset: int)
    ensures ConstantVerdict(size1, size2, baseOffset) == NoAlias ==> Apart(baseOffset, size1, size2)
    ensures 0 < size1 < UNKNOWN_SIZE && 0 < size2 < UNKNOWN_SIZE ==>
              (ConstantVerdict(size1, size2, baseOffset) == NoAlias <==>
                 forall i: nat, j: nat :: i < size1 && j < size2 ==> AreDifferent(baseOffset, i, j))
    ensures size2 == UNKNOWN_SIZE ==> ConstantVerdict(size1, size2, baseOffset) == PartialAlias
    ensures size1 == UNKNOWN_SIZE && size2 != UNKNOWN_SIZE ==>
              (ConstantVerdict(size1, size2, baseOffset) == NoAlias <==> 0 <= baseOffset && size2 <= baseOffset)
  {
    ApartIffNoCommonByte(baseOffset, size1, size2);
  }

  method AliasConstant(size1: nat, size2: nat, baseOffset: int) returns (r: AliasResult)
    ensures r == ConstantVerdict(size1, size2, baseOffset)
  {
    if baseOffset >= 0 {
      if size2 != UNKNOWN_SIZE {
        return if baseOffset < size2 then PartialAlias else NoAlias;
      }
    } else if size1 != UNKNOWN_SIZE && size2 != UNKNOWN_SIZE {
      return if -baseOffset < size1 then PartialAlias else NoAlias;
    }
    return PartialAlias;
  }

  // ---- all rules together

  /** What is known in the analysis about expressions. */
  datatype Knowledge = Knowledge(equal: Equality, maskedValueIsZero: (Expr, nat) -> bool,
                                 knownZero: Expr -> bool, knownOne: Expr -> bool)

  /** The verdict: the first rule that applies. */
  function Verdict(xs: seq<Index>, size1: nat, size2: nat, baseOffset: int, k: Knowledge): AliasResult
    requires Typed(xs)
  {
    if xs == [] then if baseOffset == 0 then MustAlias else ConstantVerdict(size1, size2, baseOffset)
    else if ApartByLowestBit(xs, size1, size2, baseOffset)
            || StaysBehind(xs, size2, baseOffset, k.knownZero, k.knownOne)
            || FarApart(xs, size1, size2, baseOffset, k.equal, k.maskedValueIsZero) then NoAlias
    else PartialAlias
  }

  method AliasByIndices(xs: seq<Index>, size1: nat, size2: nat, baseOffset: int, k: Knowledge) returns (r: AliasResult)
    requires Typed(xs)
    ensures r == Verdict(xs, size1, size2, baseOffset, k)
    ensures r == MustAlias <==> xs == [] && baseOffset == 0
    ensures r == NoAlias <==>
              || (xs == [] && baseOffset != 0 && ConstantVerdict(size1, size2, baseOffset) == NoAlias)
              || (xs != [] && ApartByLowestBit(xs, size1, size2, baseOffset))
              || (xs != [] && StaysBehind(xs, size2, baseOffset, k.knownZero, k.knownOne))
              || (xs != [] && FarApart(xs, size1, size2, baseOffset, k.equal, k.maskedValueIsZero))
  {
    if xs == [] {
      if baseOffset == 0 {
        return MustAlias;
      }
      r := AliasConstant(size1, size2, baseOffset);
      return;
    }
    var apart := TestLowestBit(xs, size1, size2, baseOffset);
    if apart {
      return NoAlias;
    }
    var positive := AllPositive(xs, k.knownZero, k.knownOne);
    if positive && baseOffset > 0 && size2 <= baseOffset {
      return NoAlias;
    }
    var far := ConstantOffsetHeuristic(xs, size1, size2, baseOffset, k.equal, k.maskedValueIsZero);
    r := if far then NoAlias else PartialAlias;
  }

  // ---- how far a list of indices can reach

  /** The greatest distance above zero of a scaled variable of w bits. */
  function Above(scale: int, w: nat, zextBits: nat): (r: int)
    requires w > 0
    ensures r >= 0
  {
    if scale >= 0 then scale * ((if zextBits > 0 then Pow2(w) else Pow2(w - 1)) - 1)
    else if zextBits > 0 then 0 else (0 - scale) * Pow2(w - 1)
  }

  /** And below zero. */
  function Below(scale: int, w: nat, zextBits: nat): int
    requires w > 0
  {
    Above(0 - scale, w, zextBits)
  }

  function Highest(xs: seq<Index>): (r: int)
    requires Typed(xs)
    ensures r >= 0
  {
    if xs == [] then 0
    else
      var x := xs[|xs| - 1];
      Highest(xs[..|xs| - 1]) + Above(x.scale, RangeBits(Width(x.v), x.zextBits, x.sextBits), x.zextBits)
  }

  function Lowest(xs: seq<Index>): int
    requires Typed(xs)
  {
    if xs == [] then 0
    else
      var x := xs[|xs| - 1];
      Lowest(xs[..|xs| - 1]) - Below(x.scale, RangeBits(Width(x.v), x.zextBits, x.sextBits), x.zextBits)
  }

  lemma TermAbove(scale: int, x: int, w: nat, zextBits: nat)
    requires w > 0 && ValueInRange(x, w, zextBits)
    ensures scale * x <= Above(scale, w, zextBits)
  {
    if scale >= 0 {
      ScaledLess(scale, x, (if zextBits > 0 then Pow2(w) else Pow2(w - 1)) - 1);
    } else {
      assert scale * x == (0 - scale) * (0 - x);
      ScaledLess(0 - scale, 0 - x, if zextBits > 0 then 0 else Pow2(w - 1));
    }
  }

  lemma ScaledLess(a: int, x: int, y: int)
    requires a >= 0 && x <= y
    ensures a * x <= a * y
  {
  }

  lemma TermInReach(scale: int, x: int, w: nat, zextBits: nat)
    requires w > 0 && ValueInRange(x, w, zextBits)
    ensures -Below(scale, w, zextBits) <= scale * x <= Above(scale, w, zextBits)
  {
    TermAbove(scale, x, w, zextBits);
    TermAbove(0 - scale, x, w, zextBits);
    assert (0 - scale) * x == -(scale * x);
  }

  lemma {:induction false} FormInReach(xs: seq<Index>, value: Valuation)
    requires Typed(xs) && InRange(value)
    ensures Lowest(xs) <= Form(xs, value) <= Highest(xs)
  {
    if xs != [] {
      var x := xs[|xs| - 1];
      FormInReach(xs[..|xs| - 1], value);
      TermInReach(x.scale, ValueOf(x.v, x.zextBits, x.sextBits, value),
                  RangeBits(Width(x.v), x.zextBits, x.sextBits), x.zextBits);
    }
  }

  // ---- what a verdict means

  /** A state, with variables in their ranges and with the signs that are known. */
  ghost predicate IsRun(xs: seq<Index>, value: Valuation, env: Env, k: Knowledge)
    requires Typed(xs)
  {
    IsState(xs, value, env, k.equal) && InRange(value) && SignsRight(value, k.knownZero, k.knownOne)
  }

  /** If only the last rule applies, the sums in it have to fit. */
  predicate SumsFitIfNeeded(xs: seq<Index>, size1: nat, size2: nat, baseOffset: int, k: Knowledge) {
    || xs == []
    || ApartByLowestBit(xs, size1, size2, baseOffset)
    || StaysBehind(xs, size2, baseOffset, k.knownZero, k.knownOne)
    || SumsFit(size1, size2, baseOffset)
  }

  /** Unless the lowest bit decides, the accesses have to stay within one stretch of memory. */
  predicate ReachFitsIfNeeded(xs: seq<Index>, size1: nat, size2: nat, baseOffset: int)
    requires Typed(xs)
  {
    || (xs != [] && ApartByLowestBit(xs, size1, size2, baseOffset))
    || (baseOffset + Highest(xs) + size1 <= U64 && size2 - baseOffset - Lowest(xs) <= U64)
  }

  /** Over the integers: no byte is common to accesses that are said not to alias, whatever the
      variables are, if the sums in the last rule fit where only that rule applies. */
  lemma NoAliasIsApart(xs: seq<Index>, size1: nat, size2: nat, baseOffset: int, k: Knowledge, value: Valuation,
                       env: Env)
    requires Typed(xs) && SameWidths(xs) && Knows(k.maskedValueIsZero) && IsRun(xs, value, env, k)
    requires Verdict(xs, size1, size2, baseOffset, k) == NoAlias && SumsFitIfNeeded(xs, size1, size2, baseOffset, k)
    ensures Apart(baseOffset + Form(xs, value), size1, size2)
  {
    if xs == [] {
      ConstantVerdictIsApart(size1, size2, baseOffset);
    } else if ApartByLowestBit(xs, size1, size2, baseOffset) {
      LowestBitKeepsApart(xs, size1, size2, baseOffset, value);
      ApartIfApartModulo(baseOffset + Form(xs, value), size1, size2);
    } else if StaysBehind(xs, size2, baseOffset, k.knownZero, k.knownOne) {
      FormNotNegative(xs, value, k.knownZero, k.knownOne);
    } else {
      FarApartIsApart(xs, size1, size2, baseOffset, k.equal, k.maskedValueIsZero, value, env);
    }
  }

  lemma StaysWithinMemory(xs: seq<Index>, size1: nat, size2: nat, baseOffset: int, value: Valuation)
    requires Typed(xs) && InRange(value)
    requires baseOffset + Highest(xs) + size1 <= U64 && size2 - baseOffset - Lowest(xs) <= U64
    ensures WithinMemory(baseOffset + Form(xs, value), size1, size2)
  {
    FormInReach(xs, value);
  }

  /** At addresses of 64 bits: the same, if the accesses stay within one stretch of memory. */
  lemma NoAliasIsApartModulo(xs: seq<Index>, size1: nat, size2: nat, baseOffset: int, k: Knowledge,
                             value: Valuation, env: Env)
    requires Typed(xs) && SameWidths(xs) && Knows(k.maskedValueIsZero) && IsRun(xs, value, env, k)
    requires Verdict(xs, size1, size2, baseOffset, k) == NoAlias && SumsFitIfNeeded(xs, size1, size2, baseOffset, k)
    requires ReachFitsIfNeeded(xs, size1, size2, baseOffset)
    ensures ApartModulo(baseOffset + Form(xs, value), size1, size2)
  {
    if xs != [] && ApartByLowestBit(xs, size1, size2, baseOffset) {
      LowestBitKeepsApart(xs, size1, size2, baseOffset, value);
    } else {
      NoAliasIsApart(xs, size1, size2, baseOffset, k, value, env);
      StaysWithinMemory(xs, size1, size2, baseOffset, value);
      ApartWithinMemory(baseOffset + Form(xs, value), size1, size2);
    }
  }

  // ---- two addresses: o1 and indices a, o2 and indices b

  /** The distance of the addresses. */
  function Distance(o1: int, a: seq<Index>, o2: int, b: seq<Index>, value: Valuation): int {
    o1 + Form(a, value) - (o2 + Form(b, value))
  }

  lemma VariablesAreTyped(xs: seq<Index>, ys: seq<Index>)
    requires VariablesFrom(xs, ys) && Typed(ys)
    ensures Typed(xs) && (SameWidths(ys) ==> SameWidths(xs))
    ensures forall env: Env :: AllDefined(ys, env) ==> AllDefined(xs, env)
  {
    forall i | 0 <= i < |xs|
      ensures exists j :: 0 <= j < |ys| && SameVariable(xs[i], ys[j])
    {
      assert HasVariable(ys, xs[i]);
    }
  }

  /** The difference of the indices is about a run if the indices are. */
  lemma DifferenceIsRun(a: seq<Index>, b: seq<Index>, k: Knowledge, value: Valuation, env: Env)
    requires Typed(a + b) && AllInt64(a) && AllInt64(b) && SameWidths(a + b) && IsRun(a + b, value, env, k)
    ensures var xs := Difference(a, b, k.equal);
            Typed(xs) && SameWidths(xs) && IsRun(xs, value, env, k)
  {
    DifferenceEntries(a, b, k.equal);
    VariablesAreTyped(Difference(a, b, k.equal), a + b);
  }

  /** The offset and the value of the difference make up the distance modulo 2^64, and exactly
      if nothing leaves 64 bits on the way. */
  lemma DifferenceIsDistance(o1: int, a: seq<Index>, o2: int, b: seq<Index>, equal: Equality, value: Valuation)
    requires Agrees(value, equal)
    ensures Congruent(Distance(o1, a, o2, b, value), Wrap64(o1 - o2) + Form(Difference(a, b, equal), value), U64)
    ensures IsInt64(o1 - o2) && ScalesFit(a, b, equal) ==>
              Distance(o1, a, o2, b, value) == Wrap64(o1 - o2) + Form(Difference(a, b, equal), value)
  {
    DifferenceForm(a, b, equal, value);
    WrapIsCongruent(o1 - o2);
    SumOfDifferences(o1, Form(a, value), o2, Form(b, value), Wrap64(o1 - o2), Form(Difference(a, b, equal), value));
    if IsInt64(o1 - o2) {
      WrapFits(o1 - o2);
    }
  }

  lemma SumOfDifferences(o1: int, f1: int, o2: int, f2: int, o: int, f: int)
    requires Congruent(o, o1 - o2, U64) && Congruent(f, f1 - f2, U64)
    ensures Congruent(o1 + f1 - (o2 + f2), o + f, U64)
  {
    CongruentSum(o, o1 - o2, f, f1 - f2, U64);
    CongruentSymmetric(o + f, o1 - o2 + (f1 - f2), U64);
  }

  /** The indices and the offset that two addresses are compared by. */
  ghost predicate AreCompared(o1: int, a: seq<Index>, o2: int, b: seq<Index>, k: Knowledge, xs: seq<Index>,
                              baseOffset: int)
  {
    && Typed(a + b) && AllInt64(a) && AllInt64(b) && SameWidths(a + b) && Knows(k.maskedValueIsZero)
    && xs == Difference(a, b, k.equal) && Typed(xs) && baseOffset == Wrap64(o1 - o2)
  }

  /** Two addresses that are said not to alias: at addresses of 64 bits the accesses share no byte,
      whatever the variables are, and whether or not offsets and scales wrap.  Only the lowest bit
      decides without further conditions; the other rules need accesses that stay within one
      stretch of memory, and the last one sums that fit. */
  lemma NoAliasHoldsInMemory(o1: int, a: seq<Index>, size1: nat, o2: int, b: seq<Index>, size2: nat, k: Knowledge,
                             xs: seq<Index>, baseOffset: int, value: Valuation, env: Env)
    requires AreCompared(o1, a, o2, b, k, xs, baseOffset) && IsRun(a + b, value, env, k)
    requires Verdict(xs, size1, size2, baseOffset, k) == NoAlias
    requires SumsFitIfNeeded(xs, size1, size2, baseOffset, k) && ReachFitsIfNeeded(xs, size1, size2, baseOffset)
    ensures ApartModulo(Distance(o1, a, o2, b, value), size1, size2)
  {
    DifferenceIsRun(a, b, k, value, env);
    NoAliasIsApartModulo(xs, size1, size2, baseOffset, k, value, env);
    DifferenceIsDistance(o1, a, o2, b, k.equal, value);
    ApartModuloDistance(Distance(o1, a, o2, b, value), baseOffset + Form(xs, value), size1, size2);
  }

  /** Over the integers the offset and the scales must not wrap, but nothing else has to fit. */
  lemma NoAliasHoldsOverIntegers(o1: int, a: seq<Index>, size1: nat, o2: int, b: seq<Index>, size2: nat, k: Knowledge,
                                 xs: seq<Index>, baseOffset: int, value: Valuation, env: Env)
    requires AreCompared(o1, a, o2, b, k, xs, baseOffset) && IsRun(a + b, value, env, k)
    requires Verdict(xs, size1, size2, baseOffset, k) == NoAlias && SumsFitIfNeeded(xs, size1, size2, baseOffset, k)
    requires IsInt64(o1 - o2) && ScalesFit(a, b, k.equal)
    ensures Apart(Distance(o1, a, o2, b, value), size1, size2)
  {
    DifferenceIsRun(a, b, k, value, env);
    NoAliasIsApart(xs, size1, size2, baseOffset, k, value, env);
    DifferenceIsDistance(o1, a, o2, b, k.equal, value);
  }

  /** Two addresses that are said to be the same are, modulo 2^64. */
  lemma MustAliasIsSame(o1: int, a: seq<Index>, size1: nat, o2: int, b: seq<Index>, size2: nat, k: Knowledge,
                        xs: seq<Index>, baseOffset: int, value: Valuation)
    requires AreCompared(o1, a, o2, b, k, xs, baseOffset) && Agrees(value, k.equal)
    requires Verdict(xs, size1, size2, baseOffset, k) == MustAlias
    ensures Congruent(Distance(o1, a, o2, b, value), 0, U64)
  {
    DifferenceIsDistance(o1, a, o2, b, k.equal, value);
  }

  // ---- the query

  /** In every run the accesses share no byte at addresses of 64 bits. */
  ghost predicate NeverMeet(o1: int, a: seq<Index>, size1: nat, o2: int, b: seq<Index>, size2: nat, k: Knowledge)
    requires Typed(a + b)
  {
    forall value, env: Env {:trigger IsRun(a + b, value, env, k)} ::
      IsRun(a + b, value, env, k) ==> ApartModulo(Distance(o1, a, o2, b, value), size1, size2)
  }

  /** In every run they share no byte, counted in integers. */
  ghost predicate NeverOverlap(o1: int, a: seq<Index>, size1: nat, o2: int, b: seq<Index>, size2: nat, k: Knowledge)
    requires Typed(a + b)
  {
    forall value, env: Env {:trigger IsRun(a + b, value, env, k)} ::
      IsRun(a + b, value, env, k) ==> Apart(Distance(o1, a, o2, b, value), size1, size2)
  }

  /** In every run the two addresses are the same, modulo 2^64. */
  ghost predicate AlwaysSame(o1: int, a: seq<Index>, o2: int, b: seq<Index>, k: Knowledge)
    requires Typed(a + b)
  {
    forall value, env: Env {:trigger IsRun(a + b, value, env, k)} ::
      IsRun(a + b, value, env, k) ==> Congruent(Distance(o1, a, o2, b, value), 0, U64)
  }

  /** What a verdict promises about two addresses. */
  ghost predicate Holds(r: AliasResult, o1: int, a: seq<Index>, size1: nat, o2: int, b: seq<Index>, size2: nat,
                        k: Knowledge, xs: seq<Index>, baseOffset: int)
    requires Typed(a + b) && Typed(xs)
  {
    && (r == NoAlias && SumsFitIfNeeded(xs, size1, size2, baseOffset, k) ==>
          && (ReachFitsIfNeeded(xs, size1, size2, baseOffset) ==> NeverMeet(o1, a, size1, o2, b, size2, k))
          && (IsInt64(o1 - o2) && ScalesFit(a, b, k.equal) ==> NeverOverlap(o1, a, size1, o2, b, size2, k)))
    && (r == MustAlias ==> AlwaysSame(o1, a, o2, b, k))
  }

  lemma VerdictHolds(r: AliasResult, o1: int, a: seq<Index>, size1: nat, o2: int, b: seq<Index>, size2: nat,
                     k: Knowledge, xs: seq<Index>, baseOffset: int)
    requires AreCompared(o1, a, o2, b, k, xs, baseOffset) && r == Verdict(xs, size1, size2, baseOffset, k)
    ensures Holds(r, o1, a, size1, o2, b, size2, k, xs, baseOffset)
  {
    forall value, env: Env | IsRun(a + b, value, env, k)
      ensures r == NoAlias && SumsFitIfNeeded(xs, size1, size2, baseOffset, k)
              && ReachFitsIfNeeded(xs, size1, size2, baseOffset) ==>
                ApartModulo(Distance(o1, a, o2, b, value), size1, size2)
      ensures r == NoAlias && SumsFitIfNeeded(xs, size1, size2, baseOffset, k)
              && IsInt64(o1 - o2) && ScalesFit(a, b, k.equal) ==>
                Apart(Distance(o1, a, o2, b, value), size1, size2)
      ensures r == MustAlias ==> Congruent(Distance(o1, a, o2, b, value), 0, U64)
    {
      if r == NoAlias && SumsFitIfNeeded(xs, size1, size2, baseOffset, k) {
        if ReachFitsIfNeeded(xs, size1, size2, baseOffset) {
          NoAliasHoldsInMemory(o1, a, size1, o2, b, size2, k, xs, baseOffset, value, env);
        }
        if IsInt64(o1 - o2) && ScalesFit(a, b, k.equal) {
          NoAliasHoldsOverIntegers(o1, a, size1, o2, b, size2, k, xs, baseOffset, value, env);
        }
      } else if r == MustAlias {
        MustAliasIsSame(o1, a, size1, o2, b, size2, k, xs, baseOffset, value);
      }
    }
  }

  /** Compares two addresses with the same base.  The difference of indices and offset that is
      looked at comes back, since what a verdict promises depends on it. */
  method AliasGeps(o1: int, a: seq<Index>, size1: nat, o2: int, b: seq<Index>, size2: nat, k: Knowledge)
    returns (r: AliasResult, xs: seq<Index>, baseOffset: int)
    requires Typed(a + b) && AllInt64(a) && AllInt64(b) && SameWidths(a + b) && Knows(k.maskedValueIsZero)
    ensures xs == Difference(a, b, k.equal) && baseOffset == Wrap64(o1 - o2) && Typed(xs)
    ensures r == Verdict(xs, size1, size2, baseOffset, k)
    ensures Holds(r, o1, a, size1, o2, b, size2, k, xs, baseOffset)
  {
    DifferenceEntries(a, b, k.equal);
    VariablesAreTyped(Difference(a, b, k.equal), a + b);
    baseOffset := Wrap64(o1 - o2);
    xs := GetIndexDifference(a, b, k.equal);
    r := AliasByIndices(xs, size1, size2, baseOffset, k);
    VerdictHolds(r, o1, a, size1, o2, b, size2, k, xs, baseOffset);
  }

  /** Lists with the same entries, one for each variable, and the same offset are the same address. */
  lemma {:induction false} SameListsCancel(a: seq<Index>, rest: seq<Index>, k: Knowledge)
    requires forall i, j :: 0 <= i < j < |a + rest| ==> !Matches((a + rest)[i], (a + rest)[j], k.equal)
    requires forall v :: k.equal(v, v)
    ensures Difference(a + rest, a, k.equal) == rest
    decreases |a|
  {
    if a == [] {
      assert a + rest == rest;
    } else {
      var n := |a| - 1;
      var x := a[n];
      assert a + rest == a[..n] + ([x] + rest);
      SameListsCancel(a[..n], [x] + rest, k);
      assert Matches(([x] + rest)[0], x, k.equal) && FirstMatch([x] + rest, x, k.equal) == 0;
      assert Erase([x] + rest, 0) == rest;
    }
  }
}
