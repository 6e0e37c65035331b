/** The rule for variables of known sign misses nothing: if it does not accept the indices, there are
    values of the variables, with the signs that are known, for which their sum is negative. */
module GepSigns {
  import opened LinearExpressions
  import opened GepIndices
  import opened GepAliasing
  import opened GepLowestBit

  /** A value of the sign that makes the term negative. */
  function Negative(scale: int): int {
    if scale > 0 then -1 else 1
  }

  lemma RefusedTerm(xs: seq<Index>, i: nat, knownZero: Expr -> bool, knownOne: Expr -> bool)
    requires i < |xs| && xs[i].scale != 0 && !TermNotNegative(xs[i], knownZero, knownOne) && DistinctVariables(xs)
    ensures var value := OnlyOne(xs[i], Negative(xs[i].scale));
            SignsRight(value, knownZero, knownOne) && Form(xs, value) < 0
  {
    FormOfOne(xs, i, Negative(xs[i].scale));
  }

  /** For different variables, none of them scaled by zero: the indices are accepted exactly if their
      sum, as an integer, cannot be negative as far as the signs are known. */
  lemma NoneNegativeIsExact(xs: seq<Index>, knownZero: Expr -> bool, knownOne: Expr -> bool)
    requires DistinctVariables(xs) && NoZeroScale(xs)
    ensures NoneNegative(xs, knownZero, knownOne)
       <==> forall value: Valuation :: SignsRight(value, knownZero, knownOne) ==> Form(xs, value) >= 0
  {
    if NoneNegative(xs, knownZero, knownOne) {
      forall value: Valuation | SignsRight(value, knownZero, knownOne)
        ensures Form(xs, value) >= 0
      {
        FormNotNegative(xs, value, knownZero, knownOne);
      }
    } else {
      var i: nat :| i < |xs| && !TermNotNegative(xs[i], knownZero, knownOne);
      RefusedTerm(xs, i, knownZero, knownOne);
    }
  }

  /** So the rule says yes exactly if the first access starts at or behind the end of the second one,
      as integers, and the offset is positive. */
  lemma StaysBehindIsExact(xs: seq<Index>, size2: nat, baseOffset: int, knownZero: Expr -> bool,
                           knownOne: Expr -> bool)
    requires DistinctVariables(xs) && NoZeroScale(xs)
    ensures StaysBehind(xs, size2, baseOffset, knownZero, knownOne)
       <==> && baseOffset > 0 && size2 <= baseOffset
            && forall value: Valuation :: SignsRight(value, knownZero, knownOne) ==> Form(xs, value) >= 0
  {
    NoneNegativeIsExact(xs, knownZero, knownOne);
  }

  /** The difference of two lists is about different variables, if the first one is. */
  lemma DifferenceIsDistinct(a: seq<Index>, b: seq<Index>, equal: Equality)
    requires NoVariableTwice(a, equal) && forall v :: equal(v, v)
    ensures DistinctVariables(Difference(a, b, equal))
  {
    DifferenceTwice(a, b, equal);
  }
}
