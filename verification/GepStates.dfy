/** Program states, as far as the variables of an address are concerned. */
module GepStates {
  import opened Powers
  import opened Bits
  import opened LinearExpressions
  import opened GepIndices

  /** Extended variables agree with their values in the bits that they have, and what is held to
      be equal is. */
  ghost predicate Extends(value: Valuation, env: Env, equal: Equality) {
    && (forall v, z, s :: WellTyped(v) && Defined(v, env) ==>
          Congruent(ValueOf(v, z, s, value), Eval(v, env), Pow2(Width(v))))
    && (forall a, b :: equal(a, b) && WellTyped(a) && WellTyped(b) && Defined(a, env) && Defined(b, env) ==>
          Eval(a, env) == Eval(b, env))
  }

  /** Zero-extended variables are unsigned numbers, others signed ones.  What is zero-extended may
      have been sign-extended before, so that its sign fills more bits. */
  ghost predicate InRange(value: Valuation) {
    forall v, z, s :: WellTyped(v) ==> ValueInRange(ValueOf(v, z, s, value), RangeBits(Width(v), z, s), z)
  }

  function RangeBits(w: nat, zextBits: nat, sextBits: nat): nat {
    if zextBits > 0 then w + sextBits else w
  }

  /** Nothing has been sign-extended before it was zero-extended. */
  ghost predicate Narrow(value: Valuation) {
    forall v, z, s :: WellTyped(v) ==> ValueInRange(ValueOf(v, z, s, value), Width(v), z)
  }

  lemma NarrowInRange(value: Valuation)
    requires Narrow(value)
    ensures InRange(value)
  {
    forall v, z, s | WellTyped(v)
      ensures ValueInRange(ValueOf(v, z, s, value), RangeBits(Width(v), z, s), z)
    {
      Pow2Monotone(Width(v), RangeBits(Width(v), z, s));
    }
  }

  predicate ValueInRange(x: int, w: nat, zextBits: nat)
    requires w > 0
  {
    if zextBits > 0 then 0 <= x < Pow2(w) else 0 <= x + Pow2(w - 1) < Pow2(w)
  }

  predicate Typed(xs: seq<Index>) {
    forall i :: 0 <= i < |xs| ==> WellTyped(xs[i].v)
  }

  /** Variables that are extended by as many bits are of the same width. */
  predicate SameWidths(xs: seq<Index>) {
    forall i, j :: 0 <= i < |xs| && 0 <= j < |xs|
                   && xs[i].zextBits == xs[j].zextBits && xs[i].sextBits == xs[j].sextBits ==>
      Width(xs[i].v) == Width(xs[j].v)
  }

  /** A state in which all of the variables are defined. */
  ghost predicate IsState(xs: seq<Index>, value: Valuation, env: Env, equal: Equality)
    requires Typed(xs)
  {
    Extends(value, env, equal) && Agrees(value, equal) && AllDefined(xs, env)
  }

  predicate AllDefined(xs: seq<Index>, env: Env)
    requires Typed(xs)
  {
    forall i :: 0 <= i < |xs| ==> Defined(xs[i].v, env)
  }

  // ---- states exist

  function Signed(u: nat, w: nat): int
    requires w > 0
  {
    if u < Pow2(w - 1) then u else u - Pow2(w)
  }

  lemma SignedInRange(u: nat, w: nat)
    requires w > 0 && u < Pow2(w)
    ensures ValueInRange(Signed(u, w), w, 0) && Congruent(Signed(u, w), u, Pow2(w))
  {
    if u < Pow2(w - 1) {
      CongruentSelf(u, Pow2(w));
    } else {
      CongruentBy(u - Pow2(w), u, Pow2(w), -1);
    }
  }

  /** What the variables are extended to in a given environment. */
  function Extended(env: Env): Valuation {
    (v, z, s) => if !WellTyped(v) then 0 else if z > 0 then Eval(v, env) else Signed(Eval(v, env), Width(v))
  }

  function Same(): Equality {
    (a, b) => a == b
  }

  /** Every environment gives a state. */
  lemma ExtendedIsState(xs: seq<Index>, env: Env)
    requires Typed(xs) && AllDefined(xs, env)
    ensures IsState(xs, Extended(env), env, Same()) && Narrow(Extended(env))
  {
    forall v, z, s | WellTyped(v)
      ensures Congruent(ValueOf(v, z, s, Extended(env)), Eval(v, env), Pow2(Width(v)))
      ensures ValueInRange(ValueOf(v, z, s, Extended(env)), Width(v), z)
    {
      SignedInRange(Eval(v, env), Width(v));
      CongruentSelf(Eval(v, env), Pow2(Width(v)));
    }
  }
}
