/** Lists of scaled variables, as the variable part of an address, and their difference. */
module GepIndices {
  import opened Powers
  import opened Bits
  import opened LinearExpressions

  const I63: int := 0x8000_0000_0000_0000

  /** A variable, extended to the width of pointers, times a scale. */
  datatype Index = Index(v: Expr, zextBits: nat, sextBits: nat, scale: int)

  /** The values that the extended variables have. */
  type Valuation = (Expr, nat, nat) -> int

  type Equality = (Expr, Expr) -> bool

  predicate IsInt64(x: int) {
    -I63 <= x < I63
  }

  function Wrap64(x: int): (r: int)
    ensures IsInt64(r)
  {
    (x + I63) % U64 - I63
  }

  lemma WrapIsCongruent(x: int)
    ensures Congruent(Wrap64(x), x, U64)
  {
    RemainderIsCongruent(x + I63, U64);
    CongruentSelf(I63, U64);
    CongruentSum((x + I63) % U64, x + I63, I63, I63, U64);
  }

  predicate AllInt64(xs: seq<Index>) {
    forall i :: 0 <= i < |xs| ==> IsInt64(xs[i].scale)
  }

  predicate NoZeroScale(xs: seq<Index>) {
    forall i :: 0 <= i < |xs| ==> xs[i].scale != 0
  }

  function ValueOf(v: Expr, zextBits: nat, sextBits: nat, value: Valuation): int {
    value(v, zextBits, sextBits)
  }

  function Term(x: Index, value: Valuation): int {
    x.scale * ValueOf(x.v, x.zextBits, x.sextBits, value)
  }

  /** The value of a list of indices. */
  function Form(xs: seq<Index>, value: Valuation): int {
    if xs == [] then 0 else Form(xs[..|xs| - 1], value) + Term(xs[|xs| - 1], value)
  }

  // ---- the difference of two lists

  /** What is held to be equal has equal values, extended in any way. */
  ghost predicate Agrees(value: Valuation, equal: Equality) {
    forall a, b, z, s :: equal(a, b) ==> ValueOf(a, z, s, value) == ValueOf(b, z, s, value)
  }

  lemma FormAppend(xs: seq<Index>, x: Index, value: Valuation)
    ensures Form(xs + [x], value) == Form(xs, value) + Term(x, value)
  {
  }

  lemma {:induction false} FormUpdate(xs: seq<Index>, j: nat, x: Index, value: Valuation)
    requires j < |xs|
    ensures Form(xs[j := x], value) == Form(xs, value) - Term(xs[j], value) + Term(x, value)
  {
    var n := |xs| - 1;
    if j < n {
      assert xs[j := x][..n] == xs[..n][j := x];
      FormUpdate(xs[..n], j, x, value);
    } else {
      assert xs[j := x][..n] == xs[..n];
    }
  }

  lemma {:induction false} FormErase(xs: seq<Index>, j: nat, value: Valuation)
    requires j < |xs|
    ensures Form(xs[..j] + xs[j + 1..], value) == Form(xs, value) - Term(xs[j], value)
  {
    var n := |xs| - 1;
    var ys := xs[..j] + xs[j + 1..];
    if j < n {
      assert ys[..n - 1] == xs[..n][..j] + xs[..n][j + 1..];
      assert ys[n - 1] == xs[n];
      FormErase(xs[..n], j, value);
    } else {
      assert ys == xs[..n];
    }
  }

  predicate Matches(d: Index, x: Index, equal: Equality) {
    equal(d.v, x.v) && d.zextBits == x.zextBits && d.sextBits == x.sextBits
  }

  lemma SingleForm(x: Index, value: Valuation)
    ensures Form([x], value) == Term(x, value)
  {
  }

  lemma MatchedTerm(d: Index, x: Index, equal: Equality, value: Valuation)
    requires Matches(d, x, equal) && Agrees(value, equal)
    ensures Term(d, value) == d.scale * ValueOf(x.v, x.zextBits, x.sextBits, value)
  {
  }

  lemma CongruentShift(a: int, b: int, c: int)
    requires Congruent(a, b, U64)
    ensures Congruent(c + a, c + b, U64)
  {
    CongruentSelf(c, U64);
    CongruentSum(c, c, a, b, U64);
  }

  /** A scale less another, wrapped, times a value. */
  lemma ScaleDifference(f: int, d: int, s: int, t: int)
    ensures Congruent(f - d * t + Wrap64(d - s) * t, f - s * t, U64)
  {
    WrapIsCongruent(d - s);
    CongruentProduct(Wrap64(d - s), d - s, t, U64);
    CongruentShift(Wrap64(d - s) * t, (d - s) * t, f - d * t);
    assert (d - s) * t == d * t - s * t;
  }

  /** The position of the first entry for the same variable, or the length of the list. */
  function FirstMatch(dest: seq<Index>, x: Index, equal: Equality): (j: nat)
    ensures j <= |dest| && (j < |dest| ==> Matches(dest[j], x, equal))
    ensures forall k :: 0 <= k < j ==> !Matches(dest[k], x, equal)
  {
    if dest == [] || Matches(dest[0], x, equal) then 0 else 1 + FirstMatch(dest[1..], x, equal)
  }

  /** The list with the entry at j gone. */
  function Erase(dest: seq<Index>, j: nat): seq<Index>
    requires j < |dest|
  {
    dest[..j] + dest[j + 1..]
  }

  /** One index subtracted: from the entry for the same variable, or as a new entry. */
  function Less(dest: seq<Index>, x: Index, equal: Equality): seq<Index> {
    var j := FirstMatch(dest, x, equal);
    if j < |dest| then
      if dest[j].scale != x.scale then dest[j := dest[j].(scale := Wrap64(dest[j].scale - x.scale))] else Erase(dest, j)
    else if x.scale != 0 then dest + [x.(scale := Wrap64(0 - x.scale))]
    else dest
  }

  /** All indices of a list subtracted. */
  function Difference(dest: seq<Index>, src: seq<Index>, equal: Equality): seq<Index> {
    if src == [] then dest else Less(Difference(dest, src[..|src| - 1], equal), src[|src| - 1], equal)
  }

  method SubtractIndex(dest0: seq<Index>, x: Index, equal: Equality) returns (dest: seq<Index>)
    ensures dest == Less(dest0, x, equal)
  {
    dest := dest0;
    var scale := x.scale;
    for j := 0 to |dest|
      invariant dest == dest0 && scale == x.scale && forall k :: 0 <= k < j ==> !Matches(dest[k], x, equal)
    {
      if Matches(dest[j], x, equal) {
        if dest[j].scale != scale {
          dest := dest[j := dest[j].(scale := Wrap64(dest[j].scale - scale))];
        } else {
          dest := dest[..j] + dest[j + 1..];
        }
        return;
      }
    }
    if scale != 0 {
      dest := dest + [Index(x.v, x.zextBits, x.sextBits, Wrap64(0 - scale))];
    }
  }

  /** The symbolic difference of two lists of indices. */
  method GetIndexDifference(dest0: seq<Index>, src: seq<Index>, equal: Equality) returns (dest: seq<Index>)
    ensures dest == Difference(dest0, src, equal)
  {
    dest := dest0;
    for i := 0 to |src|
      invariant dest == Difference(dest0, src[..i], equal)
    {
      dest := SubtractIndex(dest, src[i], equal);
      assert src[..i + 1][..i] == src[..i];
    }
    assert src[..|src|] == src;
  }

  // ---- the difference has the value of the difference

  /** The subtraction of one scale stays within 64 bits. */
  predicate StepFits(dest: seq<Index>, x: Index, equal: Equality) {
    var j := FirstMatch(dest, x, equal);
    IsInt64((if j < |dest| then dest[j].scale else 0) - x.scale)
  }

  /** All of them do. */
  predicate ScalesFit(dest: seq<Index>, src: seq<Index>, equal: Equality) {
    src == []
    || (ScalesFit(dest, src[..|src| - 1], equal)
        && StepFits(Difference(dest, src[..|src| - 1], equal), src[|src| - 1], equal))
  }

  lemma WrapFits(x: int)
    requires IsInt64(x)
    ensures Wrap64(x) == x
  {
  }

  /** One step: modulo 2^64 in any case, and exactly if the scales fit. */
  lemma LessForm(dest: seq<Index>, x: Index, equal: Equality, value: Valuation)
    requires Agrees(value, equal)
    ensures Congruent(Form(Less(dest, x, equal), value), Form(dest, value) - Term(x, value), U64)
    ensures StepFits(dest, x, equal) ==> Form(Less(dest, x, equal), value) == Form(dest, value) - Term(x, value)
  {
    var j := FirstMatch(dest, x, equal);
    if j < |dest| {
      MatchedForm(dest, j, x, equal, value);
    } else if x.scale != 0 {
      NewForm(dest, x, x.(scale := Wrap64(0 - x.scale)), value);
    } else {
      ZeroTerm(x, value);
      CongruentSelf(Form(dest, value), U64);
    }
  }

  lemma ZeroTerm(x: Index, value: Valuation)
    requires x.scale == 0
    ensures Term(x, value) == 0
  {
  }

  lemma NewForm(dest: seq<Index>, x: Index, y: Index, value: Valuation)
    requires y == x.(scale := Wrap64(0 - x.scale))
    ensures Congruent(Form(dest + [y], value), Form(dest, value) - Term(x, value), U64)
    ensures IsInt64(0 - x.scale) ==> Form(dest + [y], value) == Form(dest, value) - Term(x, value)
  {
    var f, s, t := Form(dest, value), x.scale, ValueOf(x.v, x.zextBits, x.sextBits, value);
    FormAppend(dest, y, value);
    ScaleDifference(f, 0, s, t);
    if IsInt64(0 - s) {
      ScaleFits(f, 0, s, t);
    }
  }

  lemma MatchedForm(dest: seq<Index>, j: nat, x: Index, equal: Equality, value: Valuation)
    requires j < |dest| && j == FirstMatch(dest, x, equal) && Agrees(value, equal)
    ensures Congruent(Form(Less(dest, x, equal), value), Form(dest, value) - Term(x, value), U64)
    ensures StepFits(dest, x, equal) ==> Form(Less(dest, x, equal), value) == Form(dest, value) - Term(x, value)
  {
    MatchedTerm(dest[j], x, equal, value);
    if dest[j].scale != x.scale {
      ReducedForm(dest, j, x, dest[j].(scale := Wrap64(dest[j].scale - x.scale)), equal, value);
    } else {
      FormErase(dest, j, value);
      CongruentSelf(Form(dest, value) - Term(x, value), U64);
    }
  }

  lemma ReducedForm(dest: seq<Index>, j: nat, x: Index, y: Index, equal: Equality, value: Valuation)
    requires j < |dest| && Matches(dest[j], x, equal) && Agrees(value, equal)
    requires y == dest[j].(scale := Wrap64(dest[j].scale - x.scale))
    ensures Congruent(Form(dest[j := y], value), Form(dest, value) - Term(x, value), U64)
    ensures IsInt64(dest[j].scale - x.scale) ==> Form(dest[j := y], value) == Form(dest, value) - Term(x, value)
  {
    var f, d, s, t := Form(dest, value), dest[j].scale, x.scale, ValueOf(x.v, x.zextBits, x.sextBits, value);
    MatchedTerm(dest[j], x, equal, value);
    MatchedTerm(y, x, equal, value);
    FormUpdate(dest, j, y, value);
    ScaleDifference(f, d, s, t);
    if IsInt64(d - s) {
      ScaleFits(f, d, s, t);
    }
  }

  lemma ScaleFits(f: int, d: int, s: int, t: int)
    requires IsInt64(d - s)
    ensures f - d * t + Wrap64(d - s) * t == f - s * t
  {
    assert (d - s) * t == d * t - s * t;
  }

  /** Whatever the variables are, the difference of the lists has the value of the difference:
      modulo 2^64 in any case, and exactly if no scale leaves 64 bits on the way. */
  lemma {:induction false} DifferenceForm(dest: seq<Index>, src: seq<Index>, equal: Equality, value: Valuation)
    requires Agrees(value, equal)
    ensures Congruent(Form(Difference(dest, src, equal), value), Form(dest, value) - Form(src, value), U64)
    ensures ScalesFit(dest, src, equal) ==>
              Form(Difference(dest, src, equal), value) == Form(dest, value) - Form(src, value)
  {
    if src == [] {
      CongruentSelf(Form(dest, value), U64);
    } else {
      var front, x := src[..|src| - 1], src[|src| - 1];
      var d := Difference(dest, front, equal);
      DifferenceForm(dest, front, equal, value);
      LessForm(d, x, equal, value);
      var t := Term(x, value);
      CongruentSelf(t, U64);
      CongruentSum(Form(d, value), Form(dest, value) - Form(front, value), t, t, U64);
      CongruentTransitive(Form(Less(d, x, equal), value), Form(d, value) - t,
                          Form(dest, value) - Form(front, value) - t, U64);
    }
  }

  /** The fit is needed: otherwise one step is off for a variable that is one. */
  lemma StepExactOnlyIfFits(dest: seq<Index>, x: Index, equal: Equality)
    ensures StepFits(dest, x, equal) <==>
              forall value: Valuation :: Agrees(value, equal) ==>
                Form(Less(dest, x, equal), value) == Form(dest, value) - Term(x, value)
  {
    if StepFits(dest, x, equal) {
      forall value: Valuation | Agrees(value, equal)
        ensures Form(Less(dest, x, equal), value) == Form(dest, value) - Term(x, value)
      {
        LessForm(dest, x, equal, value);
      }
    } else {
      StepIsOff(dest, x, equal, (v, z, s) => 1);
    }
  }

  lemma StepIsOff(dest: seq<Index>, x: Index, equal: Equality, one: Valuation)
    requires !StepFits(dest, x, equal) && forall v, z, s :: ValueOf(v, z, s, one) == 1
    ensures Agrees(one, equal) && Form(Less(dest, x, equal), one) != Form(dest, one) - Term(x, one)
  {
    var j := FirstMatch(dest, x, equal);
    assert Term(x, one) == x.scale;
    if j < |dest| {
      var d: int := dest[j].scale - x.scale;
      WrapMoves(d);
      LessAtMatch(dest, j, x, equal);
      UpdateIsOff(dest, j, dest[j].(scale := Wrap64(d)), one);
    } else {
      NewIsOff(dest, x, x.(scale := Wrap64(0 - x.scale)), one);
    }
  }

  lemma LessAtMatch(dest: seq<Index>, j: nat, x: Index, equal: Equality)
    requires j < |dest| && j == FirstMatch(dest, x, equal) && dest[j].scale != x.scale
    ensures Less(dest, x, equal) == dest[j := dest[j].(scale := Wrap64(dest[j].scale - x.scale))]
  {
  }

  lemma WrapMoves(d: int)
    requires !IsInt64(d)
    ensures Wrap64(d) != d && d != 0
  {
    assert IsInt64(Wrap64(d));
  }

  lemma UpdateIsOff(dest: seq<Index>, j: nat, y: Index, one: Valuation)
    requires j < |dest| && forall v, z, s :: ValueOf(v, z, s, one) == 1
    ensures Form(dest[j := y], one) == Form(dest, one) - dest[j].scale + y.scale
  {
    FormUpdate(dest, j, y, one);
    assert Term(dest[j], one) == dest[j].scale && Term(y, one) == y.scale;
  }

  lemma NewIsOff(dest: seq<Index>, x: Index, y: Index, one: Valuation)
    requires y == x.(scale := Wrap64(0 - x.scale)) && !IsInt64(0 - x.scale)
    requires forall v, z, s :: ValueOf(v, z, s, one) == 1
    ensures Form(dest + [y], one) != Form(dest, one) - x.scale
  {
    FormAppend(dest, y, one);
    assert Term(y, one) == y.scale;
  }

  // ---- what the entries of the difference are

  /** The same variable, extended in the same way. */
  predicate SameVariable(x: Index, y: Index) {
    x.v == y.v && x.zextBits == y.zextBits && x.sextBits == y.sextBits
  }

  /** Every variable of xs is one of ys. */
  ghost predicate VariablesFrom(xs: seq<Index>, ys: seq<Index>) {
    forall i :: 0 <= i < |xs| ==> HasVariable(ys, xs[i])
  }

  ghost predicate HasVariable(ys: seq<Index>, x: Index) {
    exists j :: 0 <= j < |ys| && SameVariable(x, ys[j])
  }

  lemma HasVariableGrows(ys: seq<Index>, zs: seq<Index>, x: Index)
    requires HasVariable(ys, x)
    ensures HasVariable(ys + zs, x)
  {
    var j :| 0 <= j < |ys| && SameVariable(x, ys[j]);
    assert (ys + zs)[j] == ys[j];
  }

  /** The difference is about the variables of the two lists, and no scale in it is zero. */
  lemma {:induction false} DifferenceEntries(dest: seq<Index>, src: seq<Index>, equal: Equality)
    requires AllInt64(dest) && AllInt64(src)
    ensures VariablesFrom(Difference(dest, src, equal), dest + src) && AllInt64(Difference(dest, src, equal))
    ensures NoZeroScale(dest) ==> NoZeroScale(Difference(dest, src, equal))
  {
    if src == [] {
      assert dest + src == dest;
      assert forall i :: 0 <= i < |dest| ==> SameVariable(dest[i], dest[i]);
    } else {
      var front, x := src[..|src| - 1], src[|src| - 1];
      DifferenceEntries(dest, front, equal);
      assert dest + src == dest + front + [x];
      LessEntries(Difference(dest, front, equal), x, equal, dest + front);
    }
  }

  lemma LessEntries(d: seq<Index>, x: Index, equal: Equality, ys: seq<Index>)
    requires VariablesFrom(d, ys) && AllInt64(d) && IsInt64(x.scale)
    ensures VariablesFrom(Less(d, x, equal), ys + [x]) && AllInt64(Less(d, x, equal))
    ensures NoZeroScale(d) ==> NoZeroScale(Less(d, x, equal))
  {
    var d', j := Less(d, x, equal), FirstMatch(d, x, equal);
    forall i | 0 <= i < |d'|
      ensures HasVariable(ys + [x], d'[i])
    {
      if i < |d| {
        var k := if j < |d| && d[j].scale == x.scale && i >= j then i + 1 else i;
        assert SameVariable(d'[i], d[k]);
        assert HasVariable(ys, d[k]);
        HasVariableGrows(ys, [x], d'[i]);
      } else {
        assert SameVariable(d'[i], (ys + [x])[|ys|]);
      }
    }
  }

  /** No entry has a variable that an earlier one is about. */
  predicate NoVariableTwice(xs: seq<Index>, equal: Equality) {
    forall i, j :: 0 <= i < j < |xs| ==>
      !(equal(xs[i].v, xs[j].v) && xs[i].zextBits == xs[j].zextBits && xs[i].sextBits == xs[j].sextBits)
  }

  lemma UpdateTwice(d: seq<Index>, k: nat, y: Index, equal: Equality)
    requires NoVariableTwice(d, equal) && k < |d| && SameVariable(y, d[k])
    ensures NoVariableTwice(d[k := y], equal)
  {
    assert forall i :: 0 <= i < |d| ==> SameVariable(d[k := y][i], d[i]);
  }

  lemma EraseTwice(d: seq<Index>, k: nat, equal: Equality)
    requires NoVariableTwice(d, equal) && k < |d|
    ensures NoVariableTwice(Erase(d, k), equal)
  {
    assert forall i :: 0 <= i < |d| - 1 ==> Erase(d, k)[i] == d[if i < k then i else i + 1];
  }

  lemma LessTwice(d: seq<Index>, x: Index, equal: Equality)
    requires NoVariableTwice(d, equal)
    ensures NoVariableTwice(Less(d, x, equal), equal)
  {
    var k := FirstMatch(d, x, equal);
    if k == |d| {
      assert forall i :: 0 <= i < |d| ==> !Matches(d[i], x, equal);
    } else if d[k].scale != x.scale {
      UpdateTwice(d, k, d[k].(scale := Wrap64(d[k].scale - x.scale)), equal);
    } else {
      EraseTwice(d, k, equal);
    }
  }

  /** If no variable comes twice in the first list, whatever the other one holds, then none comes
      twice in the difference: nothing that could be taken together has been left apart. */
  lemma {:induction false} DifferenceTwice(dest: seq<Index>, src: seq<Index>, equal: Equality)
    requires NoVariableTwice(dest, equal)
    ensures NoVariableTwice(Difference(dest, src, equal), equal)
  {
    if src != [] {
      var front := src[..|src| - 1];
      DifferenceTwice(dest, front, equal);
      LessTwice(Difference(dest, front, equal), src[|src| - 1], equal);
    }
  }
}
