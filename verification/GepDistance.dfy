/** When two accesses a known distance apart do not overlap, and the test that cuts the memory
    into pieces by the lowest bit set in any scale. */
module GepDistance {
  import opened Powers
  import opened Bits
  import opened GepIndices

  const UNKNOWN_SIZE: nat := 0xFFFF_FFFF_FFFF_FFFF

  // ---- accesses that do not overlap; delta is the distance from the second start to the first

  /** Over the integers. */
  predicate Apart(delta: int, size1: nat, size2: nat) {
    size1 == 0 || size2 == 0 || delta >= size2 || delta + size1 <= 0
  }

  /** Byte i of the first access is byte j of the second, whose start lies delta before the other. */
  ghost predicate Meets(delta: int, i: nat, j: nat) {
    Congruent(delta + i, j, U64)
  }

  /** Two ranges of bytes do not meet, at addresses of 64 bits. */
  ghost predicate ApartModulo(delta: int, size1: nat, size2: nat) {
    forall i: nat, j: nat :: i < size1 && j < size2 ==> !Meets(delta, i, j)
  }

  /** Over the integers no byte is common to accesses exactly if they are apart. */
  lemma ApartIffNoCommonByte(delta: int, size1: nat, size2: nat)
    ensures Apart(delta, size1, size2)
       <==> forall i: nat, j: nat :: i < size1 && j < size2 ==> AreDifferent(delta, i, j)
  {
    if !Apart(delta, size1, size2) {
      var i: nat, j: nat := if delta >= 0 then 0 else -delta, if delta >= 0 then delta else 0;
      assert !AreDifferent(delta, i, j);
    }
  }

  predicate AreDifferent(delta: int, i: nat, j: nat) {
    delta + i != j
  }

  /** Only the distance modulo 2^64 matters at addresses of 64 bits. */
  lemma ApartModuloDistance(delta: int, delta': int, size1: nat, size2: nat)
    requires Congruent(delta, delta', U64) && ApartModulo(delta', size1, size2)
    ensures ApartModulo(delta, size1, size2)
  {
    forall i: nat, j: nat | i < size1 && j < size2
      ensures !Meets(delta, i, j)
    {
      if Congruent(delta + i, j, U64) {
        CongruentSelf(i, U64);
        CongruentSum(delta, delta', i, i, U64);
        CongruentSymmetric(delta + i, delta' + i, U64);
        CongruentTransitive(delta' + i, delta + i, j, U64);
        assert Meets(delta', i, j);
      }
    }
  }

  /** Both accesses lie within one stretch of 2^64 bytes. */
  predicate WithinMemory(delta: int, size1: nat, size2: nat) {
    delta + size1 <= U64 && size2 - delta <= U64
  }

  /** Then what is apart over the integers is apart at addresses of 64 bits. */
  lemma ApartWithinMemory(delta: int, size1: nat, size2: nat)
    requires Apart(delta, size1, size2) && WithinMemory(delta, size1, size2)
    ensures ApartModulo(delta, size1, size2)
  {
    forall i: nat, j: nat | i < size1 && j < size2
      ensures !Meets(delta, i, j)
    {
      if delta >= size2 {
        NotCongruent(delta + i, j);
      } else {
        NotCongruent(j, delta + i);
        if Congruent(delta + i, j, U64) {
          CongruentSymmetric(delta + i, j, U64);
        }
      }
    }
  }

  /** Different numbers less than 2^64 apart. */
  lemma NotCongruent(a: int, b: int)
    requires b < a < b + U64
    ensures !Congruent(a, b, U64)
  {
    if Congruent(a, b, U64) {
      CongruentSelf(b, U64);
      CongruentSum(a, b, b, b, U64);
      CongruentIsEqual(a - b, 0, U64);
    }
  }

  /** What is apart at addresses of 64 bits is apart over the integers. */
  lemma ApartIfApartModulo(delta: int, size1: nat, size2: nat)
    requires ApartModulo(delta, size1, size2)
    ensures Apart(delta, size1, size2)
  {
    if !Apart(delta, size1, size2) {
      var i: nat, j: nat := if delta >= 0 then 0 else -delta, if delta >= 0 then delta else 0;
      CongruentSelf(j, U64);
      assert delta + i == j;
      assert Meets(delta, i, j);
    }
  }

  // ---- the lowest bit set in any scale

  function OrOfScales(xs: seq<Index>): nat {
    if xs == [] then 0 else Or(OrOfScales(xs[..|xs| - 1]), xs[|xs| - 1].scale % U64)
  }

  lemma {:induction false} OrOfScalesBound(xs: seq<Index>)
    ensures OrOfScales(xs) < U64
  {
    if xs != [] {
      OrOfScalesBound(xs[..|xs| - 1]);
      Pow2Is64();
      OrBound(OrOfScales(xs[..|xs| - 1]), xs[|xs| - 1].scale % U64, 64);
    }
  }

  /** A power of two that divides all scales divides the value, whatever the variables are. */
  lemma {:induction false} FormIsMultiple(xs: seq<Index>, k: nat, value: Valuation)
    requires k <= 64 && OrOfScales(xs) % Pow2(k) == 0
    ensures Congruent(Form(xs, value), 0, Pow2(k))
  {
    if xs == [] {
      CongruentSelf(0, Pow2(k));
    } else {
      var x, front := xs[|xs| - 1], xs[..|xs| - 1];
      DividesBoth(OrOfScales(front), x.scale % U64, k);
      FormIsMultiple(front, k, value);
      ScaleIsMultiple(x.scale, k);
      CongruentProduct(x.scale, 0, ValueOf(x.v, x.zextBits, x.sextBits, value), Pow2(k));
      CongruentSum(Form(front, value), 0, Term(x, value), 0, Pow2(k));
    }
  }

  lemma ScaleIsMultiple(scale: int, k: nat)
    requires k <= 64 && scale % U64 % Pow2(k) == 0
    ensures Congruent(scale, 0, Pow2(k))
  {
    var r := scale % U64;
    RemainderIsCongruent(scale, U64);
    CongruentSymmetric(r, scale, U64);
    Pow2Is64();
    CongruentPowers(scale, r, 64, k);
    RemainderIsCongruent(r, Pow2(k));
    CongruentSymmetric(r % Pow2(k), r, Pow2(k));
    CongruentTransitive(scale, r, 0, Pow2(k));
  }

  /** The modulus that the test works with: the lowest bit set in any scale; zero stands for 2^64. */
  function Modulo(xs: seq<Index>): nat {
    var all := OrOfScales(xs);
    Xor(all, And(all, (all - 1) % U64))
  }

  lemma ModuloIsPower(xs: seq<Index>) returns (k: nat)
    ensures k <= 64 && OrOfScales(xs) % Pow2(k) == 0 && Modulo(xs) == if k == 64 then 0 else Pow2(k)
    ensures k < 64 ==> OrOfScales(xs) % Pow2(k + 1) != 0
  {
    OrOfScalesBound(xs);
    k := LowestBitOf(OrOfScales(xs));
  }

  lemma LowestBitOf(n: nat) returns (k: nat)
    requires n < U64
    ensures k <= 64 && n % Pow2(k) == 0
    ensures Xor(n, And(n, (n - 1) % U64)) == if k == 64 then 0 else Pow2(k)
    ensures k < 64 ==> n % Pow2(k + 1) != 0
  {
    if n == 0 {
      k := 64;
      QuotientIs(0, Pow2(64), 0, 0);
    } else {
      QuotientIs(n - 1, U64, 0, n - 1);
      k := LowestBit(n);
      DivisorIsSmall(n, k);
    }
  }

  lemma DivisorIsSmall(n: nat, k: nat)
    requires 0 < n < U64 && n % Pow2(k) == 0
    ensures k < 64
  {
    Pow2Is64();
    if k >= 64 {
      Pow2Monotone(64, k);
      QuotientIs(n, Pow2(k), 0, n);
    }
  }

  /** The offset modulo the modulus. */
  function OffsetWithin(modulo: nat, baseOffset: int): nat {
    And(baseOffset % U64, (modulo - 1) % U64)
  }

  lemma ModOffset(k: nat, modulo: nat, baseOffset: int, o: nat)
    requires k <= 64 && modulo == if k == 64 then 0 else Pow2(k)
    requires o == OffsetWithin(modulo, baseOffset)
    ensures o < Pow2(k) && Congruent(baseOffset, o, Pow2(k))
  {
    Pow2Is64();
    var x := baseOffset % U64;
    MaskOfModulo(k, modulo);
    MaskIsRemainder(x, k);
    RemainderIsCongruent(baseOffset, U64);
    CongruentSymmetric(x, baseOffset, U64);
    CongruentPowers(baseOffset, x, 64, k);
    RemainderIsCongruent(x, Pow2(k));
    CongruentSymmetric(o, x, Pow2(k));
    CongruentTransitive(baseOffset, x, o, Pow2(k));
  }

  /** What is left of the modulus after the offset. */
  lemma RestOfModulo(k: nat, modulo: nat, o: nat)
    requires k <= 64 && modulo == (if k == 64 then 0 else Pow2(k)) && o < Pow2(k)
    ensures (modulo - o) % U64 <= Pow2(k) - o && (o > 0 || k < 64 ==> (modulo - o) % U64 == Pow2(k) - o)
  {
    Pow2Is64();
    Pow2Monotone(k, 64);
    if k == 64 && o > 0 {
      QuotientIs(U64 - o, U64, 0, U64 - o);
      CongruentBy(0 - o, U64 - o, U64, -1);
      CongruentToRemainder(0 - o, U64 - o, U64);
    } else if k < 64 {
      Pow2Monotone(k, 63);
      QuotientIs(Pow2(k) - o, U64, 0, Pow2(k) - o);
    }
  }

  lemma MaskOfModulo(k: nat, modulo: nat)
    requires k <= 64 && modulo == if k == 64 then 0 else Pow2(k)
    ensures (modulo - 1) % U64 == Pow2(k) - 1
  {
    Pow2Is64();
    Pow2Monotone(k, 64);
    if k < 64 {
      QuotientIs(Pow2(k) - 1, U64, 0, Pow2(k) - 1);
    }
  }

  /** If the second range ends before the offset, and the first one fits behind it, the two never
      meet, in any of the pieces into which the modulus cuts the memory. */
  lemma ApartByModulo(delta: int, offset: nat, k: nat, size1: nat, size2: nat)
    requires k <= 64 && Congruent(delta, offset, Pow2(k)) && offset >= size2 && size1 <= Pow2(k) - offset
    ensures ApartModulo(delta, size1, size2)
  {
    forall i: nat, j: nat | i < size1 && j < size2
      ensures !Meets(delta, i, j)
    {
      if Meets(delta, i, j) {
        Pow2Is64();
        CongruentPowers(delta + i, j, 64, k);
        CongruentSelf(i, Pow2(k));
        CongruentSum(delta, offset, i, i, Pow2(k));
        CongruentSymmetric(delta + i, offset + i, Pow2(k));
        CongruentTransitive(offset + i, delta + i, j, Pow2(k));
        CongruentIsEqual(offset + i, j, Pow2(k));
      }
    }
  }

  /** The offset, modulo the modulus, lies behind the second access and leaves room for the first. */
  predicate HasRoom(modulo: nat, size1: nat, size2: nat, baseOffset: int) {
    var modOffset := OffsetWithin(modulo, baseOffset);
    && size1 != UNKNOWN_SIZE && size2 != UNKNOWN_SIZE
    && modOffset >= size2 && size1 <= (modulo - modOffset) % U64
  }

  /** The test, with the lowest bit set in any scale. */
  predicate ApartByLowestBit(xs: seq<Index>, size1: nat, size2: nat, baseOffset: int) {
    HasRoom(Modulo(xs), size1, size2, baseOffset)
  }

  method TestLowestBit(xs: seq<Index>, size1: nat, size2: nat, baseOffset: int) returns (r: bool)
    ensures r <==> ApartByLowestBit(xs, size1, size2, baseOffset)
  {
    var modulo := 0;
    for i := 0 to |xs|
      invariant modulo == OrOfScales(xs[..i])
    {
      assert xs[..i + 1][..i] == xs[..i];
      modulo := Or(modulo, xs[i].scale % U64);
    }
    assert xs[..|xs|] == xs;
    modulo := Xor(modulo, And(modulo, (modulo - 1) % U64));
    var modOffset := And(baseOffset % U64, (modulo - 1) % U64);
    r := size1 != UNKNOWN_SIZE && size2 != UNKNOWN_SIZE && modOffset >= size2 && size1 <= (modulo - modOffset) % U64;
  }

  /** The test in other words: o is the offset modulo 2^k. */
  lemma RoomBehind(k: nat, modulo: nat, size1: nat, size2: nat, baseOffset: int) returns (o: nat)
    requires k <= 64 && modulo == if k == 64 then 0 else Pow2(k)
    ensures o < Pow2(k) && Congruent(baseOffset, o, Pow2(k))
    ensures HasRoom(modulo, size1, size2, baseOffset) ==> o >= size2 && size1 <= Pow2(k) - o
    ensures size1 != UNKNOWN_SIZE && size2 != UNKNOWN_SIZE && 0 < size2 <= o && size1 <= Pow2(k) - o ==>
              HasRoom(modulo, size1, size2, baseOffset)
  {
    o := OffsetWithin(modulo, baseOffset);
    ModOffset(k, modulo, baseOffset, o);
    RestOfModulo(k, modulo, o);
  }

  lemma TestOnRemainder(xs: seq<Index>, size1: nat, size2: nat, baseOffset: int) returns (k: nat, o: nat)
    ensures k <= 64 && OrOfScales(xs) % Pow2(k) == 0 && (k < 64 ==> OrOfScales(xs) % Pow2(k + 1) != 0)
    ensures o < Pow2(k) && Congruent(baseOffset, o, Pow2(k))
    ensures ApartByLowestBit(xs, size1, size2, baseOffset) ==> o >= size2 && size1 <= Pow2(k) - o
    ensures size1 != UNKNOWN_SIZE && size2 != UNKNOWN_SIZE && 0 < size2 <= o && size1 <= Pow2(k) - o ==>
              ApartByLowestBit(xs, size1, size2, baseOffset)
  {
    k := ModuloIsPower(xs);
    o := RoomBehind(k, Modulo(xs), size1, size2, baseOffset);
  }

  /** Then the accesses never meet at addresses of 64 bits, whatever the variables are. */
  lemma LowestBitKeepsApart(xs: seq<Index>, size1: nat, size2: nat, baseOffset: int, value: Valuation)
    requires ApartByLowestBit(xs, size1, size2, baseOffset)
    ensures ApartModulo(baseOffset + Form(xs, value), size1, size2)
  {
    var k, o := TestOnRemainder(xs, size1, size2, baseOffset);
    FormIsMultiple(xs, k, value);
    CongruentSum(baseOffset, o, Form(xs, value), 0, Pow2(k));
    ApartByModulo(baseOffset + Form(xs, value), o, k, size1, size2);
  }

  // ---- offsets of pointers with fewer than 64 bits

  /** Shifted up to the highest bit and back again, with the sign. */
  function AdjustToPointerSize(offset: int, bits: nat): int
    requires 0 < bits <= 64
  {
    Wrap64(offset * Pow2(64 - bits)) / Pow2(64 - bits)
  }

  lemma WrapIs(x: int, r: int)
    requires Congruent(x, r, U64) && IsInt64(r)
    ensures Wrap64(x) == r
  {
  }

  lemma ShiftedCongruent(a: int, b: int, m: int, p: int)
    requires Congruent(a, b, m)
    ensures Congruent(a * p, b * p, m * p)
  {
    var k :| a - b == Times(k, m);
    assert (a - b) * p == (k * m) * p == k * (m * p);
    assert (a - b) * p == a * p - b * p;
    CongruentBy(a * p, b * p, m * p, k);
  }

  /** This takes the low bits of the offset as a signed number. */
  lemma AdjustedIsSignedRemainder(offset: int, bits: nat, r: int)
    requires 0 < bits <= 64 && Congruent(offset, r, Pow2(bits)) && 0 <= r + Pow2(bits - 1) && r < Pow2(bits - 1)
    ensures AdjustToPointerSize(offset, bits) == r
  {
    var p := Pow2(64 - bits);
    Pow2Is64();
    Pow2Add(bits, 64 - bits);
    Pow2Add(bits - 1, 64 - bits);
    ShiftedCongruent(offset, r, Pow2(bits), p);
    ScaledBounds(r, Pow2(bits - 1), p);
    WrapIs(offset * p, r * p);
    ExactQuotient(r, p);
  }

  lemma ScaledBounds(r: int, b: nat, p: nat)
    requires 0 <= r + b && r < b && p > 0
    ensures 0 <= r * p + b * p && r * p < b * p
  {
  }

  lemma ExactQuotient(r: int, p: nat)
    requires p > 0
    ensures r * p / p == r
  {
    CongruentBy(r * p, 0, p, r);
    CongruentToRemainder(r * p, 0, p);
    CancelProduct(r * p / p, r, p);
  }

  lemma CancelProduct(a: int, b: int, p: nat)
    requires p > 0 && a * p == b * p
    ensures a == b
  {
    assert (a - b) * p == 0;
  }
}
