/** Integer expressions as a multiple of one value plus a constant. */
module LinearExpressions {
  import opened Powers
  import opened Bits

  const MAX_DEPTH: nat := 6

  datatype Op = Add | Sub | Mul | Shl | BitOr | Other(id: nat)

  /** Integer values of a given width.  What is not understood is a variable. */
  datatype Expr =
    | Var(id: nat, w: nat)
    | Const(value: nat, w: nat)
    | Bin(op: Op, left: Expr, right: Expr, nuw: bool, nsw: bool)
    | ZExt(inner: Expr, w: nat)

  type Env = nat -> nat

  function Width(e: Expr): nat {
    match e
    case Bin(_, l, _, _, _) => Width(l)
    case _ => e.w
  }

  predicate WellTyped(e: Expr) {
    && Width(e) > 0
    && match e
       case Var(_, _) => true
       case Const(v, w) => v < Pow2(w)
       case Bin(_, l, r, _, _) => WellTyped(l) && WellTyped(r) && Width(l) == Width(r)
       case ZExt(i, w) => WellTyped(i) && Width(i) < w
  }

  function Apply(op: Op, a: nat, b: nat, env: Env): int {
    match op
    case Add => a + b
    case Sub => a - b
    case Mul => a * b
    case Shl => a * Pow2(b)
    case BitOr => Or(a, b)
    case Other(id) => env(id)
  }

  function Eval(e: Expr, env: Env): (r: nat)
    requires WellTyped(e)
    ensures r < Pow2(Width(e))
  {
    match e
    case Var(id, w) => env(id) % Pow2(w)
    case Const(v, _) => v
    case Bin(op, l, r, _, _) => Apply(op, Eval(l, env), Eval(r, env), env) % Pow2(Width(e))
    case ZExt(i, w) =>
      Pow2Monotone(Width(i), w);
      Eval(i, env)
  }

  /** The value is defined: nothing wraps that is marked not to, and no shift is too far. */
  predicate Defined(e: Expr, env: Env)
    requires WellTyped(e)
  {
    match e
    case Bin(op, l, r, nuw, _) =>
      && Defined(l, env) && Defined(r, env)
      && (op.Shl? ==> Eval(r, env) < Width(e))
      && (nuw && op in {Add, Sub, Mul} ==> 0 <= Apply(op, Eval(l, env), Eval(r, env), env) < Pow2(Width(e)))
    case ZExt(i, _) => Defined(i, env)
    case _ => true
  }

  /** An analysis that tells which bits of a value are zero. */
  ghost predicate Knows(maskedValueIsZero: (Expr, nat) -> bool) {
    forall x, c, env: Env :: maskedValueIsZero(x, c) && WellTyped(x) && Defined(x, env) ==> And(Eval(x, env), c) == 0
  }

  /** e is scale * base + offset modulo 2^w; its own width counts unless nothing wraps. */
  ghost predicate Means(e: Expr, env: Env, base: Expr, scale: int, offset: int, W: nat, nuw: bool)
    requires WellTyped(e) && WellTyped(base)
  {
    Congruent(Eval(e, env), scale * Eval(base, env) + offset, Pow2(if nuw then W else Width(e)))
  }

  ghost predicate AlwaysMeans(e: Expr, base: Expr, scale: int, offset: int, W: nat, nuw: bool)
    requires WellTyped(e) && WellTyped(base)
  {
    forall env: Env :: Defined(e, env) ==> Defined(base, env) && Means(e, env, base, scale, offset, W, nuw)
  }

  // ---- what each operation does to a linear form, modulo m

  lemma SumForm(a: int, s: int, b: int, o: int, c: int, o': int, m: int)
    requires Congruent(a, s * b + o, m) && Congruent(o', o + c, m)
    ensures Congruent(a + c, s * b + o', m)
  {
    CongruentSelf(c, m);
    CongruentSum(a, s * b + o, c, c, m);
    CongruentSymmetric(o', o + c, m);
    CongruentSelf(s * b, m);
    CongruentSum(s * b, s * b, o + c, o', m);
    CongruentTransitive(a + c, s * b + o + c, s * b + o', m);
  }

  lemma Distribute(s: int, b: int, o: int, c: int)
    ensures (s * b + o) * c == s * c * b + o * c
  {
    assert s * b * c == s * (b * c) == s * (c * b) == s * c * b;
  }

  lemma ProductForm(a: int, s: int, b: int, o: int, c: int, s': int, o': int, m: int)
    requires Congruent(a, s * b + o, m) && Congruent(s', s * c, m) && Congruent(o', o * c, m)
    ensures Congruent(a * c, s' * b + o', m)
  {
    CongruentProduct(a, s * b + o, c, m);
    CongruentProduct(s', s * c, b, m);
    CongruentSum(s' * b, s * c * b, o', o * c, m);
    CongruentSymmetric(s' * b + o', s * c * b + o * c, m);
    Distribute(s, b, o, c);
    CongruentTransitive(a * c, (s * b + o) * c, s' * b + o', m);
  }

  /** The modulus up to which a form holds. */
  function Modulus(e: Expr, W: nat, nuw: bool): nat {
    Pow2(if nuw then W else Width(e))
  }

  lemma ReducedForm(x: int, W: nat, e: Expr, nuw: bool)
    requires Width(e) <= W
    ensures Congruent(x % Pow2(W), x, Modulus(e, W, nuw))
  {
    RemainderIsCongruent(x, Pow2(W));
    CongruentPowers(x % Pow2(W), x, W, if nuw then W else Width(e));
  }

  /** The value of an operation is its result, exactly if it does not wrap. */
  lemma ValueForm(e: Expr, env: Env, W: nat, nuw: bool, x: int)
    requires WellTyped(e) && e.Bin? && Width(e) <= W
    requires x == Apply(e.op, Eval(e.left, env), Eval(e.right, env), env)
    requires nuw ==> 0 <= x < Pow2(Width(e))
    ensures Congruent(Eval(e, env), x, Modulus(e, W, nuw))
  {
    if nuw {
      CongruentSelf(x, Pow2(W));
      QuotientIs(x, Pow2(Width(e)), 0, x);
    } else {
      RemainderIsCongruent(x, Pow2(Width(e)));
    }
  }

  lemma WeakerForm(e: Expr, env: Env, base: Expr, scale: int, offset: int, W: nat, nuw: bool, nuw': bool)
    requires WellTyped(e) && WellTyped(base) && Width(e) <= W && Means(e, env, base, scale, offset, W, nuw)
    requires nuw' ==> nuw
    ensures Means(e, env, base, scale, offset, W, nuw')
  {
    if nuw && !nuw' {
      CongruentPowers(Eval(e, env), scale * Eval(base, env) + offset, W, Width(e));
    }
  }

  /** A sum or a difference with a constant. */
  lemma SumMeans(e: Expr, env: Env, base: Expr, s: int, o: int, W: nat, nuw: bool, d: int, nuw': bool)
    requires WellTyped(e) && e.Bin? && WellTyped(base) && Width(e) <= W && Means(e.left, env, base, s, o, W, nuw)
    requires nuw' ==> nuw
    requires Apply(e.op, Eval(e.left, env), Eval(e.right, env), env) == Eval(e.left, env) + d
    requires nuw' ==> 0 <= Eval(e.left, env) + d < Pow2(Width(e))
    ensures Means(e, env, base, s, (o + d) % Pow2(W), W, nuw')
  {
    var a, m := Eval(e.left, env), Modulus(e, W, nuw');
    WeakerForm(e.left, env, base, s, o, W, nuw, nuw');
    ReducedForm(o + d, W, e, nuw');
    SumForm(a, s, Eval(base, env), o, d, (o + d) % Pow2(W), m);
    ValueForm(e, env, W, nuw', a + d);
    CongruentTransitive(Eval(e, env), a + d, s * Eval(base, env) + (o + d) % Pow2(W), m);
  }

  /** A product with a constant. */
  lemma ProductMeans(e: Expr, env: Env, base: Expr, s: int, o: int, W: nat, nuw: bool, c: nat, nuw': bool)
    requires WellTyped(e) && e.Bin? && WellTyped(base) && Width(e) <= W && Means(e.left, env, base, s, o, W, nuw)
    requires nuw' ==> nuw
    requires Apply(e.op, Eval(e.left, env), Eval(e.right, env), env) == Eval(e.left, env) * c
    requires nuw' ==> 0 <= Eval(e.left, env) * c < Pow2(Width(e))
    ensures Means(e, env, base, s * c % Pow2(W), o * c % Pow2(W), W, nuw')
  {
    var a, b, m := Eval(e.left, env), Eval(base, env), Modulus(e, W, nuw');
    WeakerForm(e.left, env, base, s, o, W, nuw, nuw');
    ReducedForm(s * c, W, e, nuw');
    ReducedForm(o * c, W, e, nuw');
    ProductForm(a, s, b, o, c, s * c % Pow2(W), o * c % Pow2(W), m);
    ValueForm(e, env, W, nuw', a * c);
    CongruentTransitive(Eval(e, env), a * c, s * c % Pow2(W) * b + o * c % Pow2(W), m);
  }

  /** A value is itself, once, plus nothing. */
  lemma SelfMeans(e: Expr, base: Expr, W: nat, nuw: bool)
    requires WellTyped(e) && (base == e || (e.ZExt? && base == e.inner)) && 0 < W
    ensures AlwaysMeans(e, base, 1, 0, W, nuw)
  {
    forall env: Env | Defined(e, env)
      ensures Defined(base, env) && Means(e, env, base, 1, 0, W, nuw)
    {
      CongruentSelf(Eval(e, env), Modulus(e, W, nuw));
    }
  }

  lemma ConstMeans(e: Expr, W: nat, nuw: bool)
    requires WellTyped(e) && e.Const?
    ensures AlwaysMeans(e, e, 0, e.value, W, nuw)
  {
    forall env: Env | Defined(e, env)
      ensures Means(e, env, e, 0, e.value, W, nuw)
    {
      CongruentSelf(e.value, Modulus(e, W, nuw));
    }
  }

  predicate Understood(e: Expr, maskedValueIsZero: (Expr, nat) -> bool) {
    e.Bin? && e.right.Const? && !e.op.Other? && (e.op.BitOr? ==> maskedValueIsZero(e.left, e.right.value))
  }

  function NewScale(op: Op, c: nat, s: nat, W: nat): nat {
    if op.Mul? then s * c % Pow2(W) else if op.Shl? then s * Pow2(c) % Pow2(W) else s
  }

  function NewOffset(op: Op, c: nat, o: nat, W: nat): nat {
    if op.Sub? then (o - c) % Pow2(W)
    else if op.Mul? then o * c % Pow2(W)
    else if op.Shl? then o * Pow2(c) % Pow2(W)
    else (o + c) % Pow2(W)
  }

  /** Whether nothing wraps: a shift clears the mark, and an or leaves it. */
  function NewMark(op: Op, marked: bool, so: bool): bool {
    if op.Shl? then false else if op.BitOr? then so else so && marked
  }

  lemma AddMeans(e: Expr, env: Env, c: nat, base: Expr, s: nat, o: nat, W: nat, nuw: bool)
    requires WellTyped(e) && e.Bin? && e.right == Const(c, Width(e)) && WellTyped(base) && Width(e) <= W
    requires Defined(e, env) && Means(e.left, env, base, s, o, W, nuw)
    requires e.op.Add?
    ensures Means(e, env, base, s, (o + c) % Pow2(W), W, nuw && e.nuw)
  {
    SumMeans(e, env, base, s, o, W, nuw, c, nuw && e.nuw);
  }

  lemma SubMeans(e: Expr, env: Env, c: nat, base: Expr, s: nat, o: nat, W: nat, nuw: bool)
    requires WellTyped(e) && e.Bin? && e.right == Const(c, Width(e)) && WellTyped(base) && Width(e) <= W
    requires Defined(e, env) && Means(e.left, env, base, s, o, W, nuw)
    requires e.op.Sub?
    ensures Means(e, env, base, s, (o - c) % Pow2(W), W, nuw && e.nuw)
  {
    var k: int := c;
    var d: int := 0 - k;
    assert o + d == o - c;
    SumMeans(e, env, base, s, o, W, nuw, d, nuw && e.nuw);
  }

  lemma MulMeans(e: Expr, env: Env, c: nat, base: Expr, s: nat, o: nat, W: nat, nuw: bool)
    requires WellTyped(e) && e.Bin? && e.right == Const(c, Width(e)) && WellTyped(base) && Width(e) <= W
    requires Defined(e, env) && Means(e.left, env, base, s, o, W, nuw)
    requires e.op.Mul?
    ensures Means(e, env, base, s * c % Pow2(W), o * c % Pow2(W), W, nuw && e.nuw)
  {
    ProductMeans(e, env, base, s, o, W, nuw, c, nuw && e.nuw);
  }

  lemma ShlMeans(e: Expr, env: Env, c: nat, base: Expr, s: nat, o: nat, W: nat, nuw: bool)
    requires WellTyped(e) && e.Bin? && e.right == Const(c, Width(e)) && WellTyped(base) && Width(e) <= W
    requires Defined(e, env) && Means(e.left, env, base, s, o, W, nuw)
    requires e.op.Shl?
    ensures Means(e, env, base, s * Pow2(c) % Pow2(W), o * Pow2(c) % Pow2(W), W, false)
  {
    ProductMeans(e, env, base, s, o, W, nuw, Pow2(c), false);
  }

  /** An or of disjoint bits is a sum that does not wrap. */
  lemma OrMeans(e: Expr, env: Env, c: nat, base: Expr, s: nat, o: nat, W: nat, nuw: bool)
    requires WellTyped(e) && e.Bin? && e.right == Const(c, Width(e)) && WellTyped(base) && Width(e) <= W
    requires Defined(e, env) && Means(e.left, env, base, s, o, W, nuw)
    requires e.op.BitOr? && And(Eval(e.left, env), c) == 0
    ensures Means(e, env, base, s, (o + c) % Pow2(W), W, nuw)
  {
    OrOfDisjoint(Eval(e.left, env), c);
    OrBound(Eval(e.left, env), c, Width(e));
    SumMeans(e, env, base, s, o, W, nuw, c, nuw);
  }

  lemma BinMeansAt(e: Expr, env: Env, c: nat, base: Expr, s: nat, o: nat, W: nat, nuw: bool)
    requires WellTyped(e) && e.Bin? && e.right == Const(c, Width(e)) && WellTyped(base) && Width(e) <= W
    requires Defined(e, env) && Means(e.left, env, base, s, o, W, nuw)
    requires e.op in {Add, Sub, Mul, Shl, BitOr} && (e.op.BitOr? ==> And(Eval(e.left, env), c) == 0)
    ensures Means(e, env, base, NewScale(e.op, c, s, W), NewOffset(e.op, c, o, W), W, NewMark(e.op, e.nuw, nuw))
  {
    if e.op.Add? {
      AddMeans(e, env, c, base, s, o, W, nuw);
    } else if e.op.Sub? {
      SubMeans(e, env, c, base, s, o, W, nuw);
    } else if e.op.Mul? {
      MulMeans(e, env, c, base, s, o, W, nuw);
    } else if e.op.Shl? {
      ShlMeans(e, env, c, base, s, o, W, nuw);
    } else {
      OrMeans(e, env, c, base, s, o, W, nuw);
    }
  }

  /** An operation with a constant that is understood, applied to a linear form. */
  lemma BinMeans(e: Expr, maskedValueIsZero: (Expr, nat) -> bool, base: Expr, s: nat, o: nat, W: nat, nuw: bool)
    requires Knows(maskedValueIsZero) && Understood(e, maskedValueIsZero)
    requires WellTyped(e) && WellTyped(base) && Width(e) <= W && AlwaysMeans(e.left, base, s, o, W, nuw)
    ensures var c := e.right.value;
            AlwaysMeans(e, base, NewScale(e.op, c, s, W), NewOffset(e.op, c, o, W), W, NewMark(e.op, e.nuw, nuw))
  {
    var c := e.right.value;
    forall env: Env | Defined(e, env)
      ensures Defined(base, env)
      ensures Means(e, env, base, NewScale(e.op, c, s, W), NewOffset(e.op, c, o, W), W, NewMark(e.op, e.nuw, nuw))
    {
      assert Defined(e.left, env);
      BinMeansAt(e, env, c, base, s, o, W, nuw);
    }
  }

  /** Looking through a zero extension, which needs a form that does not wrap. */
  lemma ZExtMeans(e: Expr, base: Expr, s: nat, o: nat, W: nat)
    requires WellTyped(e) && e.ZExt? && WellTyped(base) && AlwaysMeans(e.inner, base, s, o, W, true)
    ensures AlwaysMeans(e, base, s, o, W, true)
  {
  }

  /** What is known of a value: scale * base + offset, with base zero-extended by some bits. */
  datatype Linear = Linear(base: Expr, scale: nat, offset: nat, zextBits: nat, nsw: bool, nuw: bool)

  function Itself(v: Expr, nsw: bool, nuw: bool): Linear {
    Linear(v, 1, 0, 0, nsw, nuw)
  }

  /** The decomposition of a value, with the arithmetic done in W bits. */
  function Decompose(v: Expr, depth: nat, nsw: bool, nuw: bool, W: nat, maskedValueIsZero: (Expr, nat) -> bool): Linear
    requires WellTyped(v)
  {
    if depth >= MAX_DEPTH then Itself(v, nsw, nuw)
    else if v.Const? then Linear(v, 0, v.value % Pow2(W), 0, nsw, nuw)
    else if Understood(v, maskedValueIsZero) then
      var l, c := Decompose(v.left, depth + 1, nsw, nuw, W, maskedValueIsZero), v.right.value;
      l.(scale := NewScale(v.op, c, l.scale, W), offset := NewOffset(v.op, c, l.offset, W),
         nsw := NewMark(v.op, v.nsw, l.nsw), nuw := NewMark(v.op, v.nuw, l.nuw))
    else if v.ZExt? then
      var l, bits := Decompose(v.inner, depth + 1, nsw, nuw, W, maskedValueIsZero), Width(v) - Width(v.inner);
      if l.nuw then l.(zextBits := l.zextBits + bits)
      else Linear(v.inner, 1, 0, bits, l.nsw, l.nuw)
    else Itself(v, nsw, nuw)
  }

  /** What the parts of a decomposition mean for the value. */
  ghost predicate IsLinear(v: Expr, l: Linear, W: nat)
    requires WellTyped(v)
  {
    && WellTyped(l.base) && Width(l.base) + l.zextBits == Width(v)
    && l.scale < Pow2(W) && l.offset < Pow2(W)
    && AlwaysMeans(v, l.base, l.scale, l.offset, W, l.nuw)
  }

  /** Whatever the variables are, the value is scale * base + offset modulo 2^W, if its width is W;
      in a narrower value only as long as nothing wraps. */
  lemma {:induction false} DecomposeIsLinear(v: Expr, depth: nat, nsw: bool, nuw: bool, W: nat,
                                             maskedValueIsZero: (Expr, nat) -> bool)
    requires Knows(maskedValueIsZero) && WellTyped(v) && Width(v) <= W
    ensures IsLinear(v, Decompose(v, depth, nsw, nuw, W, maskedValueIsZero), W)
    decreases v
  {
    Pow2Monotone(1, W);
    if depth >= MAX_DEPTH {
      SelfMeans(v, v, W, nuw);
    } else if v.Const? {
      Pow2Monotone(v.w, W);
      QuotientIs(v.value, Pow2(W), 0, v.value);
      ConstMeans(v, W, nuw);
    } else if Understood(v, maskedValueIsZero) {
      var l := Decompose(v.left, depth + 1, nsw, nuw, W, maskedValueIsZero);
      DecomposeIsLinear(v.left, depth + 1, nsw, nuw, W, maskedValueIsZero);
      BinMeans(v, maskedValueIsZero, l.base, l.scale, l.offset, W, l.nuw);
    } else if v.ZExt? {
      var l := Decompose(v.inner, depth + 1, nsw, nuw, W, maskedValueIsZero);
      DecomposeIsLinear(v.inner, depth + 1, nsw, nuw, W, maskedValueIsZero);
      if l.nuw {
        ZExtMeans(v, l.base, l.scale, l.offset, W);
      } else {
        SelfMeans(v, v.inner, W, false);
      }
    } else {
      SelfMeans(v, v, W, nuw);
    }
  }

  // ---- the decomposition goes as far as it can

  /** An operation with a constant that can be looked through. */
  predicate IsStep(v: Expr, maskedValueIsZero: (Expr, nat) -> bool) {
    && v.Bin? && v.right.Const?
    && (v.op == Add || v.op == Sub || v.op == Mul || v.op == Shl
        || (v.op == BitOr && maskedValueIsZero(v.left, v.right.value)))
  }

  /** The operand n levels down, through operations and zero extensions. */
  function Operand(v: Expr, n: nat): Expr {
    if n == 0 then v
    else match v
         case Bin(_, l, _, _, _) => Operand(l, n - 1)
         case ZExt(i, _) => Operand(i, n - 1)
         case _ => v
  }

  /** An operation that is looked through may wrap, as unsigned or as signed numbers: a shift, or one
      that is not marked.  An or of disjoint bits does not. */
  predicate MayWrap(v: Expr, depth: nat, signed: bool, maskedValueIsZero: (Expr, nat) -> bool) {
    && depth < 6
    && ((IsStep(v, maskedValueIsZero)
         && (v.op == Shl || (v.op != BitOr && !(if signed then v.nsw else v.nuw))
             || MayWrap(v.left, depth + 1, signed, maskedValueIsZero)))
        || (v.ZExt? && MayWrap(v.inner, depth + 1, signed, maskedValueIsZero)))
  }

  /** The marks that are left say which of the values nothing can wrap for. */
  lemma {:induction false} MarksAreKept(v: Expr, depth: nat, nsw: bool, nuw: bool, W: nat,
                                        maskedValueIsZero: (Expr, nat) -> bool)
    requires WellTyped(v)
    ensures var l := Decompose(v, depth, nsw, nuw, W, maskedValueIsZero);
            && l.nuw == (nuw && !MayWrap(v, depth, false, maskedValueIsZero))
            && l.nsw == (nsw && !MayWrap(v, depth, true, maskedValueIsZero))
    decreases v
  {
    if depth < MAX_DEPTH && v.Bin? {
      MarksAreKept(v.left, depth + 1, nsw, nuw, W, maskedValueIsZero);
    } else if depth < MAX_DEPTH && v.ZExt? {
      MarksAreKept(v.inner, depth + 1, nsw, nuw, W, maskedValueIsZero);
    }
  }

  /** There is a reason to stop n levels down: the depth has been reached, or the value there is
      zero-extended and something below it may wrap. */
  predicate StopsAt(v: Expr, n: nat, depth: nat, nuw: bool, maskedValueIsZero: (Expr, nat) -> bool) {
    || depth + n >= 6
    || (n > 0 && Operand(v, n - 1).ZExt? && (!nuw || MayWrap(Operand(v, n), depth + n, false, maskedValueIsZero)))
  }

  /** Nothing more can be looked through at the base, or there is a reason to stop there. */
  predicate IsDeepest(v: Expr, n: nat, l: Linear, depth: nat, nuw: bool, maskedValueIsZero: (Expr, nat) -> bool) {
    && l.base == Operand(v, n)
    && (IsStep(l.base, maskedValueIsZero) || l.base.ZExt? || (l.base.Const? && l.scale != 0) ==>
          StopsAt(v, n, depth, nuw, maskedValueIsZero))
  }

  lemma OneLevelMore(v: Expr, u: Expr, n: nat, l: Linear, l': Linear, depth: nat, nuw: bool,
                     maskedValueIsZero: (Expr, nat) -> bool)
    requires (v.Bin? && v.left == u) || (v.ZExt? && v.inner == u)
    requires IsDeepest(u, n, l, depth + 1, nuw, maskedValueIsZero)
    requires l'.base == l.base && (l.scale == 0 ==> l'.scale == 0)
    ensures IsDeepest(v, n + 1, l', depth, nuw, maskedValueIsZero)
  {
    assert Operand(v, n + 1) == Operand(u, n);
    assert n > 0 ==> Operand(v, n) == Operand(u, n - 1);
  }

  lemma StopsBelowZExt(v: Expr, l: Linear, depth: nat, nuw: bool, maskedValueIsZero: (Expr, nat) -> bool)
    requires v.ZExt? && l.base == v.inner
    requires !nuw || MayWrap(v.inner, depth + 1, false, maskedValueIsZero)
    ensures IsDeepest(v, 1, l, depth, nuw, maskedValueIsZero)
  {
    assert Operand(v.inner, 0) == v.inner;
    assert Operand(v, 1) == v.inner && Operand(v, 0) == v;
  }

  lemma NothingScaled(op: Op, c: nat, W: nat)
    ensures NewScale(op, c, 0, W) == 0
  {
    QuotientIs(0, Pow2(W), 0, 0);
  }

  /** The base is as deep as can be. */
  lemma {:induction false} BaseIsDeepest(v: Expr, depth: nat, nsw: bool, nuw: bool, W: nat,
                                         maskedValueIsZero: (Expr, nat) -> bool) returns (n: nat)
    requires WellTyped(v)
    ensures IsDeepest(v, n, Decompose(v, depth, nsw, nuw, W, maskedValueIsZero), depth, nuw, maskedValueIsZero)
    decreases v
  {
    var l := Decompose(v, depth, nsw, nuw, W, maskedValueIsZero);
    n := 0;
    if depth < MAX_DEPTH && Understood(v, maskedValueIsZero) {
      var l' := Decompose(v.left, depth + 1, nsw, nuw, W, maskedValueIsZero);
      n := BaseIsDeepest(v.left, depth + 1, nsw, nuw, W, maskedValueIsZero);
      NothingScaled(v.op, v.right.value, W);
      OneLevelMore(v, v.left, n, l', l, depth, nuw, maskedValueIsZero);
      n := n + 1;
    } else if depth < MAX_DEPTH && v.ZExt? {
      var l' := Decompose(v.inner, depth + 1, nsw, nuw, W, maskedValueIsZero);
      if l'.nuw {
        n := BaseIsDeepest(v.inner, depth + 1, nsw, nuw, W, maskedValueIsZero);
        OneLevelMore(v, v.inner, n, l', l, depth, nuw, maskedValueIsZero);
        n := n + 1;
      } else {
        MarksAreKept(v.inner, depth + 1, nsw, nuw, W, maskedValueIsZero);
        n := 1;
        StopsBelowZExt(v, l, depth, nuw, maskedValueIsZero);
      }
    }
  }

  /** Decomposes a value; scale, offset, extension and marks are updated on the way.  The
      arithmetic is done in W bits, the width of the outermost value. */
  method GetLinearExpression(v: Expr, scale0: nat, offset0: nat, zextBits0: nat, depth: nat, nsw0: bool, nuw0: bool,
                             W: nat, maskedValueIsZero: (Expr, nat) -> bool)
    returns (base: Expr, scale: nat, offset: nat, zextBits: nat, nsw: bool, nuw: bool)
    requires WellTyped(v) && scale0 == 0 && offset0 == 0 && depth <= MAX_DEPTH
    ensures zextBits >= zextBits0
    ensures Linear(base, scale, offset, zextBits - zextBits0, nsw, nuw)
         == Decompose(v, depth, nsw0, nuw0, W, maskedValueIsZero)
    decreases v
  {
    zextBits, nsw, nuw := zextBits0, nsw0, nuw0;
    if depth == MAX_DEPTH {
      base, scale, offset := v, 1, 0;
      return;
    }
    if v.Const? {
      base, scale, offset := v, scale0, (offset0 + v.value) % Pow2(W);
      return;
    }
    if v.Bin? && v.right.Const? {
      if !Understood(v, maskedValueIsZero) {
        base, scale, offset := v, 1, 0;
        return;
      }
      base, scale, offset, zextBits, nsw, nuw :=
        GetLinearExpression(v.left, scale0, offset0, zextBits, depth + 1, nsw, nuw, W, maskedValueIsZero);
      scale, offset, nsw, nuw := ApplyConstant(v, scale, offset, nsw, nuw, W);
      return;
    }
    if v.ZExt? {
      base, scale, offset, zextBits, nsw, nuw :=
        GetLinearExpression(v.inner, scale0, offset0, zextBits, depth + 1, nsw, nuw, W, maskedValueIsZero);
      if !nuw {
        base, scale, offset, zextBits := v.inner, 1, 0, zextBits0;
      }
      zextBits := zextBits + (Width(v) - Width(v.inner));
      return;
    }
    base, scale, offset := v, 1, 0;
  }

  /** What an operation with a constant does to scale, offset and marks. */
  method ApplyConstant(v: Expr, scale0: nat, offset0: nat, nsw0: bool, nuw0: bool, W: nat)
    returns (scale: nat, offset: nat, nsw: bool, nuw: bool)
    requires v.Bin? && v.right.Const? && !v.op.Other?
    ensures scale == NewScale(v.op, v.right.value, scale0, W) && offset == NewOffset(v.op, v.right.value, offset0, W)
    ensures nuw == NewMark(v.op, v.nuw, nuw0) && nsw == NewMark(v.op, v.nsw, nsw0)
  {
    var c, m := v.right.value, Pow2(W);
    scale, offset, nsw, nuw := scale0, offset0, nsw0, nuw0;
    match v.op {
      case BitOr =>
        offset := (offset + c) % m;
        return;
      case Add => offset := (offset + c) % m;
      case Sub => offset := (offset - c) % m;
      case Mul => offset, scale := offset * c % m, scale * c % m;
      case Shl =>
        offset, scale := offset * Pow2(c) % m, scale * Pow2(c) % m;
        nsw, nuw := false, false;
        return;
    }
    nuw := nuw && v.nuw;
    nsw := nsw && v.nsw;
  }
}
