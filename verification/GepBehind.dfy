/** How far the other rules can be trusted: exactly when one index keeps behind its offset, and an
    input for each condition under which a verdict holds. */
module GepBehind {
  import opened Powers
  import opened Bits
  import opened LinearExpressions
  import opened GepIndices
  import opened GepStates
  import opened GepDistance
  import opened GepHeuristic
  import opened GepLimits
  import opened GepAliasing

  // ---- one index

  function OneIndex(id: nat, w: nat, zextBits: nat, scale: int): seq<Index> {
    [Index(Var(id, w), zextBits, 0, scale)]
  }

  /** The rule for indices that are not negative accepts a variable that is zero-extended or known
      not to be negative, with a positive scale, and one known to be negative, with a negative one. */
  function SignOf(id: nat, w: nat, zextBits: nat, scale: int): Knowledge {
    Knowledge(Same(), NothingKnown(), v => zextBits == 0 && scale >= 0 && v == Var(id, w),
              v => zextBits == 0 && scale < 0 && v == Var(id, w))
  }

  predicate Accepted(zextBits: nat, scale: int) {
    scale > 0 || (scale < 0 && zextBits == 0)
  }

  /** The greatest value that such a variable has, apart from its sign. */
  function Greatest(w: nat, zextBits: nat, scale: int): nat
    requires w > 0
  {
    if zextBits > 0 then Pow2(w) - 1 else if scale < 0 then Pow2(w - 1) else Pow2(w - 1) - 1
  }

  /** A run in which what is known to be negative is not zero either. */
  ghost predicate IsSignedRun(xs: seq<Index>, value: Valuation, env: Env, k: Knowledge)
    requires Typed(xs)
  {
    && IsRun(xs, value, env, k)
    && forall v, z, s :: k.knownOne(v) && !ZeroExtended(v, z) ==> ValueOf(v, z, s, value) < 0
  }

  ghost predicate StaysApart(xs: seq<Index>, size1: nat, size2: nat, baseOffset: int, k: Knowledge)
    requires Typed(xs)
  {
    forall value, env: Env {:trigger IsSignedRun(xs, value, env, k)} ::
      IsSignedRun(xs, value, env, k) ==> ApartModulo(baseOffset + Form(xs, value), size1, size2)
  }

  /** A zero extension is not negative. */
  lemma ZExtIsNotNegative(v: Expr, env: Env)
    requires v.ZExt? && WellTyped(v)
    ensures Signed(Eval(v, env), Width(v)) >= 0
  {
    Pow2Monotone(Width(v.inner), Width(v) - 1);
    assert Eval(v, env) == Eval(v.inner, env);
  }

  lemma ExtendedSigns(v: Expr, z: nat, s: nat, env: Env)
    requires ZeroExtended(v, z)
    ensures ValueOf(v, z, s, Extended(env)) >= 0
  {
    if WellTyped(v) && z > 0 {
      assert ValueOf(v, z, s, Extended(env)) == Eval(v, env);
    } else if WellTyped(v) {
      ZExtIsNotNegative(v, env);
      assert ValueOf(v, z, s, Extended(env)) == Signed(Eval(v, env), Width(v));
    }
  }

  /** The value u steps away from zero, in the direction of the scale. */
  function Steps(scale: int, u: int): int {
    if scale < 0 then 0 - u else u
  }

  /** The same as a number of w bits. */
  function Pattern(w: nat, scale: int, u: nat): nat
    requires u <= Pow2(w)
  {
    if scale < 0 then Pow2(w) - u else u
  }

  lemma GreatestFits(w: nat, zextBits: nat, scale: int)
    requires w > 0
    ensures Greatest(w, zextBits, scale) < Pow2(w)
  {
  }

  lemma VariableAt(id: nat, w: nat, zextBits: nat, scale: int, u: nat)
    requires 0 < w && Accepted(zextBits, scale) && u <= Greatest(w, zextBits, scale) && (scale < 0 ==> u > 0)
    ensures ValueOf(Var(id, w), zextBits, 0, Extended(Only(id, Pattern(w, scale, u)))) == Steps(scale, u)
    ensures zextBits == 0 ==>
              forall s :: ValueOf(Var(id, w), 0, s, Extended(Only(id, Pattern(w, scale, u)))) == Steps(scale, u)
  {
    var v, env, p := Var(id, w), Only(id, Pattern(w, scale, u)), Pattern(w, scale, u);
    GreatestFits(w, zextBits, scale);
    assert WellTyped(v);
    QuotientIs(p, Pow2(w), 0, p);
    assert Eval(v, env) == p;
    forall s
      ensures ValueOf(v, zextBits, s, Extended(env)) == Steps(scale, u)
    {
      assert ValueOf(v, zextBits, s, Extended(env)) == if zextBits > 0 then Eval(v, env) else Signed(Eval(v, env), w);
    }
  }

  lemma SignedRunAt(id: nat, w: nat, zextBits: nat, scale: int, u: nat, env: Env)
    requires 0 < w && Accepted(zextBits, scale) && u <= Greatest(w, zextBits, scale) && (scale < 0 ==> u > 0)
    requires u <= Pow2(w) && env == Only(id, Pattern(w, scale, u))
    ensures var xs := OneIndex(id, w, zextBits, scale);
            Typed(xs) && IsSignedRun(xs, Extended(env), env, SignOf(id, w, zextBits, scale))
  {
    var k, value := SignOf(id, w, zextBits, scale), Extended(env);
    ExtendedIsState(OneIndex(id, w, zextBits, scale), env);
    NarrowInRange(value);
    VariableAt(id, w, zextBits, scale, u);
    forall v, z, s | k.knownZero(v) || ZeroExtended(v, z)
      ensures ValueOf(v, z, s, value) >= 0
    {
      if ZeroExtended(v, z) {
        ExtendedSigns(v, z, s, env);
      }
    }
  }

  lemma FormAt(id: nat, w: nat, zextBits: nat, scale: int, u: nat, x: int, value: Valuation)
    requires ValueOf(Var(id, w), zextBits, 0, value) == x && x == Steps(scale, u)
    ensures Form(OneIndex(id, w, zextBits, scale), value) == u * Abs(scale)
  {
    SingleForm(OneIndex(id, w, zextBits, scale)[0], value);
    if scale < 0 {
      assert scale * (0 - u as int) == u * (0 - scale);
    }
  }

  /** In a run the variable is so many steps away from zero, in the direction of its scale. */
  lemma StepsInRun(id: nat, w: nat, zextBits: nat, scale: int, value: Valuation, env: Env) returns (u: nat)
    requires 0 < w && Accepted(zextBits, scale) && Typed(OneIndex(id, w, zextBits, scale))
    requires IsSignedRun(OneIndex(id, w, zextBits, scale), value, env, SignOf(id, w, zextBits, scale))
    ensures u <= Greatest(w, zextBits, scale)
    ensures Form(OneIndex(id, w, zextBits, scale), value) == u * Abs(scale)
  {
    var x, k := ValueOf(Var(id, w), zextBits, 0, value), SignOf(id, w, zextBits, scale);
    assert WellTyped(Var(id, w)) && ValueInRange(x, RangeBits(w, zextBits, 0), zextBits);
    assert zextBits == 0 ==> if scale < 0 then k.knownOne(Var(id, w)) else k.knownZero(Var(id, w));
    u := if scale < 0 then -x else x;
    FormAt(id, w, zextBits, scale, u, x, value);
  }

  /** The first multiple that passes a limit. */
  lemma FirstBeyond(start: int, scale: nat, n: nat, limit: int) returns (u: nat)
    requires scale > 0 && start + n * scale > limit
    ensures u <= n && start + u * scale > limit && (u == 0 || start + u * scale <= limit + scale)
  {
    u := n;
    while u > 0 && start + (u - 1) * scale > limit
      invariant u <= n && start + u * scale > limit
    {
      u := u - 1;
    }
    if u > 0 {
      OneMore(u, scale);
    }
  }

  lemma OneMore(u: nat, scale: nat)
    requires u > 0
    ensures u * scale == (u - 1) * scale + scale
  {
  }

  lemma WithinRoom(u: nat, top: nat, scale: nat, size1: nat, size2: nat, baseOffset: nat)
    requires u <= top && size2 <= baseOffset && baseOffset + top * scale + size1 <= U64
    ensures ApartModulo(baseOffset + u * scale, size1, size2)
  {
    MulMonotone(u, top, scale);
    ApartWithinMemory(baseOffset + u * scale, size1, size2);
  }

  /** At a distance that passes the end of memory by less than the sizes the accesses do meet. */
  lemma MeetsBeyondEnd(delta: nat, size1: nat, size2: nat)
    requires 0 < size1 && 0 < size2 && U64 - size1 < delta < U64 + size2
    ensures !ApartModulo(delta, size1, size2)
  {
    if ApartModulo(delta, size1, size2) {
      CongruentBy(delta - U64, delta, U64, -1);
      ApartModuloDistance(delta - U64, delta, size1, size2);
      ApartIfApartModulo(delta - U64, size1, size2);
    }
  }

  lemma StaysBehindIf(id: nat, w: nat, zextBits: nat, scale: int, size1: nat, size2: nat, baseOffset: nat, top: nat)
    requires 0 < w && Accepted(zextBits, scale) && top == Greatest(w, zextBits, scale)
    requires size2 <= baseOffset && baseOffset + top * Abs(scale) + size1 <= U64
    ensures var xs := OneIndex(id, w, zextBits, scale);
            Typed(xs) && StaysApart(xs, size1, size2, baseOffset, SignOf(id, w, zextBits, scale))
  {
    var xs := OneIndex(id, w, zextBits, scale);
    forall value, env: Env | IsSignedRun(xs, value, env, SignOf(id, w, zextBits, scale))
      ensures ApartModulo(baseOffset + Form(xs, value), size1, size2)
    {
      var u := StepsInRun(id, w, zextBits, scale, value, env);
      WithinRoom(u, top, Abs(scale), size1, size2, baseOffset);
    }
  }

  /** If the steps cannot leap over both accesses, some value makes them meet otherwise. */
  lemma PassesEnd(id: nat, w: nat, zextBits: nat, scale: int, size1: nat, size2: nat, baseOffset: nat, top: nat)
    requires 0 < w && Accepted(zextBits, scale) && top == Greatest(w, zextBits, scale)
    requires Abs(scale) < size1 + size2 && 0 < size1 && 0 < size2 <= baseOffset < U64
    requires scale < 0 ==> baseOffset + size1 <= U64
    requires baseOffset + top * Abs(scale) + size1 > U64
    ensures var xs := OneIndex(id, w, zextBits, scale);
            Typed(xs) && !StaysApart(xs, size1, size2, baseOffset, SignOf(id, w, zextBits, scale))
  {
    var u := FirstBeyond(baseOffset, Abs(scale), top, U64 - size1);
    GreatestFits(w, zextBits, scale);
    var env := Only(id, Pattern(w, scale, u));
    MeetsBeyondEnd(baseOffset + u * Abs(scale), size1, size2);
    SignedRunAt(id, w, zextBits, scale, u, env);
    VariableAt(id, w, zextBits, scale, u);
    FormAt(id, w, zextBits, scale, u, Steps(scale, u), Extended(env));
  }

  /** The rule says no alias of every positive offset that the second access ends before.  At
      addresses of 64 bits that is right exactly if the greatest value of the variable leaves room. */
  lemma StaysBehindIff(id: nat, w: nat, zextBits: nat, scale: int, size1: nat, size2: nat, baseOffset: nat)
    requires 0 < w && Accepted(zextBits, scale) && Abs(scale) < size1 + size2
    requires 0 < size1 && 0 < size2 <= baseOffset < U64 && (scale < 0 ==> baseOffset + size1 <= U64)
    ensures var xs, k := OneIndex(id, w, zextBits, scale), SignOf(id, w, zextBits, scale);
            && Typed(xs) && Verdict(xs, size1, size2, baseOffset, k) == NoAlias
            && (StaysApart(xs, size1, size2, baseOffset, k) <==>
                  baseOffset + Greatest(w, zextBits, scale) * Abs(scale) + size1 <= U64)
  {
    var top := Greatest(w, zextBits, scale);
    RuleApplies(id, w, zextBits, scale, size1, size2, baseOffset);
    if baseOffset + top * Abs(scale) + size1 <= U64 {
      StaysBehindIf(id, w, zextBits, scale, size1, size2, baseOffset, top);
    } else {
      PassesEnd(id, w, zextBits, scale, size1, size2, baseOffset, top);
    }
  }

  lemma RuleApplies(id: nat, w: nat, zextBits: nat, scale: int, size1: nat, size2: nat, baseOffset: nat)
    requires 0 < w && Accepted(zextBits, scale) && 0 < baseOffset && size2 <= baseOffset
    ensures var xs := OneIndex(id, w, zextBits, scale);
            Typed(xs) && Verdict(xs, size1, size2, baseOffset, SignOf(id, w, zextBits, scale)) == NoAlias
  {
    var xs, k := OneIndex(id, w, zextBits, scale), SignOf(id, w, zextBits, scale);
    assert TermNotNegative(xs[0], k.knownZero, k.knownOne);
    assert StaysBehind(xs, size2, baseOffset, k.knownZero, k.knownOne);
  }

  // ---- an input for each condition of a verdict

  /** The reach, with an index that is zero-extended: eight times a variable of 61 bits, plus 16.
      The rule says no alias, but the last elements lie beyond the end of memory. */
  lemma WrapsAroundMemory(id: nat)
    ensures var xs, k := OneIndex(id, 61, 3, 8), SignOf(id, 61, 3, 8);
            Typed(xs) && Verdict(xs, 8, 8, 16, k) == NoAlias && !StaysApart(xs, 8, 8, 16, k)
  {
    Pow2Is64();
    Pow2Add(61, 3);
    StaysBehindIff(id, 61, 3, 8, 8, 8, 16);
  }

  /** And with one of 64 bits that is known not to be negative. */
  lemma WrapsAroundKnownZero(id: nat)
    ensures var xs, k := OneIndex(id, 64, 0, 8), SignOf(id, 64, 0, 8);
            Typed(xs) && Verdict(xs, 8, 8, 16, k) == NoAlias && !StaysApart(xs, 8, 8, 16, k)
  {
    Pow2Is64();
    assert Pow2(64) == 2 * Pow2(63);
    StaysBehindIff(id, 64, 0, 8, 8, 8, 16);
  }

  function NoSigns(): Knowledge {
    Knowledge(Same(), NothingKnown(), v => false, v => false)
  }

  lemma RunAt(xs: seq<Index>, env: Env)
    requires Typed(xs) && AllDefined(xs, env)
    ensures IsRun(xs, Extended(env), env, NoSigns())
  {
    var value, k := Extended(env), NoSigns();
    ExtendedIsState(xs, env);
    NarrowInRange(value);
    forall v, z, s | k.knownZero(v) || ZeroExtended(v, z)
      ensures ValueOf(v, z, s, value) >= 0
    {
      ExtendedSigns(v, z, s, env);
    }
  }

  /** The reach, without any index: the first access, of all but ten bytes of the memory, starts 16
      bytes behind the second one and comes around to it. */
  lemma ComesAround()
    ensures Verdict([], 0xFFFF_FFFF_FFFF_FFF6, 8, 16, NoSigns()) == NoAlias
    ensures !NeverMeet(16, [], 0xFFFF_FFFF_FFFF_FFF6, 0, [], 8, NoSigns())
  {
    MeetsBeyondEnd(16, 0xFFFF_FFFF_FFFF_FFF6, 8);
    RunAt([] + [], i => 0);
    assert Distance(16, [], 0, [], Extended(i => 0)) == 16;
  }

  /** The offset leaves 64 bits: 2^63 - 1 against -1.  The verdict is that of the opposite order. */
  lemma OffsetWraps()
    ensures Verdict(Difference([], [], Same()), 8, 0x8000_0000_0000_0008, Wrap64(I63 - 1 - (0 - 1)), NoSigns())
         == NoAlias
    ensures !NeverOverlap(I63 - 1, [], 8, 0 - 1, [], 0x8000_0000_0000_0008, NoSigns())
  {
    RunAt([] + [], i => 0);
    assert Distance(I63 - 1, [], 0 - 1, [], Extended(i => 0)) == I63;
  }

  /** A scale leaves 64 bits: -2^62 less 2^62 + 1 becomes positive, and the index seems to lead away
      from the second access. */
  lemma ScaleWraps(id: nat)
    ensures var a, b := OneIndex(id, 1, 63, 0 - 0x4000_0000_0000_0000), OneIndex(id, 1, 63, 0x4000_0000_0000_0001);
            && Typed(a + b) && Typed(Difference(a, b, Same()))
            && Verdict(Difference(a, b, Same()), 0x8000_0000_0000_0000, 8, 16, NoSigns()) == NoAlias
            && !NeverOverlap(16, a, 0x8000_0000_0000_0000, 0, b, 8, NoSigns())
  {
    var a, b := OneIndex(id, 1, 63, 0 - 0x4000_0000_0000_0000), OneIndex(id, 1, 63, 0x4000_0000_0000_0001);
    var xs := OneIndex(id, 1, 63, I63 - 1);
    assert b[..0] == [] && Matches(a[0], b[0], Same());
    assert Difference(a, [], Same()) == a && Difference(a, b, Same()) == xs;
    assert TermNotNegative(xs[0], NoSigns().knownZero, NoSigns().knownOne);
    assert StaysBehind(xs, 8, 16, NoSigns().knownZero, NoSigns().knownOne);
    var env := Only(id, 1);
    RunAt(a + b, env);
    FormAt(id, 1, 63, 0x4000_0000_0000_0001, 1, 1, Extended(env));
    SingleForm(a[0], Extended(env));
    assert Distance(16, a, 0, b, Extended(env)) == 15 - I63;
  }
}
