/** The distribution of a block's mass over its successors, and how it is normalised. */
module MassDistribution {
  import opened Powers
  import opened MassArithmetic
  import opened MassWeights

  const MANY: nat := 128

  /** What combining takes: positive weights, one kind of edge to each target. */
  predicate Combinable(ws: WeightList) {
    Positive(ws) && OneKindEach(ws)
  }

  /** What combining gives. */
  ghost predicate CombinedFrom(out: WeightList, ws: WeightList) {
    Combined(out, ws) && |out| <= |ws| && (ws != [] ==> out != [])
  }

  // ---- by sorting

  method CombineWeightsBySorting(ws: WeightList) returns (out: WeightList)
    requires Combinable(ws)
    ensures CombinedFrom(out, ws)
  {
    SortedByTargetIsPermutation(ws);
    PermutationKeeps(ws, SortByTarget(ws));
    out := CombineAdjacent(SortByTarget(ws));
    CombinedPermuted(out, SortByTarget(ws), ws);
    assert |multiset(ws)| == |ws| && |multiset(SortByTarget(ws))| == |SortByTarget(ws)|;
  }

  /** In place: a[..o] are the combined weights of s[..i], and a[l..] is still as in s. */
  ghost predicate Compacting(a: WeightList, s: WeightList, o: nat, i: nat, l: nat) {
    && o <= i <= l <= |s| == |a|
    && Combined(a[..o], s[..i])
    && (forall k :: l <= k < |s| ==> a[k] == s[k])
    && (forall k :: 0 <= k < o ==> forall m :: i <= m < |s| ==> a[k].target < s[m].target)
  }

  /** Combines the weights of each run of equal targets, moving them to the front. */
  method CombineAdjacent(s: WeightList) returns (out: WeightList)
    requires Positive(s) && SortedByTarget(s)
    ensures CombinedFrom(out, s)
  {
    var a, o, i, l := s, 0, 0, 0;
    assert s[..0] == [] && a[..0] == [];
    while i != |a|
      invariant Compacting(a, s, o, i, i) && l == i && (i > 0 ==> o > 0)
      decreases |s| - i
    {
      a, l := CombineRun(a, s, o, i);
      o, i := o + 1, l;
    }
    assert s[..|s|] == s;
    out := a[..o];
  }

  /** One run of equal targets. */
  method CombineRun(a0: WeightList, s: WeightList, o: nat, i: nat) returns (a: WeightList, l: nat)
    requires Positive(s) && SortedByTarget(s) && Compacting(a0, s, o, i, i) && i < |s|
    ensures i < l <= |s| && Compacting(a, s, o + 1, l, l)
  {
    a := a0[o := a0[i]];
    l := i + 1;
    RunBegins(a0, s, o, i, a);
    while l != |a| && s[i].target == a[l].target
      invariant InRun(a0, a, s, o, i, l)
      decreases |s| - l
    {
      RunGoesOn(a0, a, s, o, i, l);
      a := a[o := CombineWeight(a[o], a[l])];
      l := l + 1;
    }
    RunEnds(a0, a, s, o, i, l);
  }

  /** In a run that began at i: a[o] is the combined weight of s[i..l]. */
  ghost predicate InRun(a0: WeightList, a: WeightList, s: WeightList, o: nat, i: nat, l: nat) {
    && o <= i < l <= |s| == |a| == |a0|
    && Combined(a[..o + 1], s[..l]) && a[o].target == s[i].target && a[..o] == a0[..o]
    && forall k :: l <= k < |s| ==> a[k] == s[k]
  }

  lemma RunBegins(a0: WeightList, s: WeightList, o: nat, i: nat, a: WeightList)
    requires Positive(s) && Compacting(a0, s, o, i, i) && i < |s| && a == a0[o := a0[i]]
    ensures InRun(a0, a, s, o, i, i + 1)
  {
    assert a[..o + 1] == a0[..o] + [s[i]] && s[..i + 1] == s[..i] + [s[i]];
    forall k | 0 <= k < o
      ensures a0[..o][k].target != s[i].target
    {
      assert a0[k].target < s[i].target;
    }
    CombinedNew(a0[..o], s[..i], s[i]);
  }

  lemma RunGoesOn(a0: WeightList, a: WeightList, s: WeightList, o: nat, i: nat, l: nat)
    requires Positive(s) && InRun(a0, a, s, o, i, l) && l < |s| && s[i].target == a[l].target
    ensures 0 < a[o].amount < U64 && 0 < a[l].amount < U64
    ensures InRun(a0, a[o := CombineWeight(a[o], a[l])], s, o, i, l + 1)
  {
    var b := a[..o + 1];
    assert b[o] == a[o] && a[l] == s[l];
    CombinedMore(b, s[..l], o, s[l]);
    var a' := a[o := CombineWeight(a[o], a[l])];
    assert s[..l + 1] == s[..l] + [s[l]];
    assert a'[..o + 1] == b[o := CombineWeight(b[o], s[l])];
    assert a'[..o] == a[..o];
  }

  lemma RunEnds(a0: WeightList, a: WeightList, s: WeightList, o: nat, i: nat, l: nat)
    requires SortedByTarget(s) && Compacting(a0, s, o, i, i) && InRun(a0, a, s, o, i, l)
    requires l < |s| ==> s[i].target != s[l].target
    ensures Compacting(a, s, o + 1, l, l)
  {
  }

  // ---- by hashing

  /** The table holds the combined weight of every target. */
  ghost predicate TableCombined(table: map<nat, Weight>, ws: WeightList) {
    && (forall t :: t in table ==> table[t].target == t && table[t].amount == Min(FULL, SumTo(ws, t)))
    && (forall t :: t in table ==> HasEdge(ws, table[t].kind, t))
    && (forall t :: HasTarget(ws, t) <==> t in table)
  }

  method CombineWeightsByHashing(ws: WeightList) returns (out: WeightList)
    requires Combinable(ws)
    ensures CombinedFrom(out, ws)
  {
    var combined := FillTable(ws);
    if |ws| == |combined| {
      DistinctIsCombined(ws);
      return ws;
    }
    out := TableValues(combined, ws);
  }

  /** If there are as many entries as weights, no two weights had the same target. */
  ghost predicate Filled(table: map<nat, Weight>, ws: WeightList) {
    TableCombined(table, ws) && |table| <= |ws| && (|table| == |ws| ==> Distinct(ws))
  }

  function Enter(table: map<nat, Weight>, w: Weight): map<nat, Weight>
    requires 0 < w.amount < U64 && (w.target in table ==> 0 <= table[w.target].amount < U64)
  {
    table[w.target := if w.target in table then CombineWeight(table[w.target], w) else w]
  }

  method FillTable(ws: WeightList) returns (combined: map<nat, Weight>)
    requires Positive(ws)
    ensures Filled(combined, ws)
  {
    combined := map[];
    ghost var done: WeightList := [];
    for i := 0 to |ws|
      invariant done == ws[..i] && Filled(combined, done) && (i == |ws| ==> done == ws)
    {
      NextPositive(ws, done, i);
      TableStep(combined, done, ws[i]);
      combined, done := Enter(combined, ws[i]), done + [ws[i]];
    }
  }

  lemma NextPositive(ws: WeightList, done: WeightList, i: nat)
    requires Positive(ws) && i < |ws| && done == ws[..i]
    ensures Positive(done) && 0 < ws[i].amount < U64 && ws[..i + 1] == done + [ws[i]]
    ensures i + 1 == |ws| ==> done + [ws[i]] == ws
  {
  }

  /** The values of the table in any order. */
  method TableValues(combined: map<nat, Weight>, ws: WeightList) returns (out: WeightList)
    requires TableCombined(combined, ws) && |combined| <= |ws|
    ensures CombinedFrom(out, ws)
  {
    out := [];
    var left := combined.Keys;
    while left != {}
      invariant Drained(combined, out, left)
      decreases left
    {
      var t :| t in left;
      DrainStep(combined, out, left, t);
      out := out + [combined[t]];
      left := left - {t};
    }
    assert ws != [] ==> HasTarget(ws, ws[0].target);
  }

  /** The values of all keys except those left have been put out. */
  ghost predicate Drained(combined: map<nat, Weight>, out: WeightList, left: set<nat>) {
    && left <= combined.Keys && Distinct(out) && |out| + |left| == |combined|
    && (forall k :: 0 <= k < |out| ==>
          out[k].target in combined && out[k] == combined[out[k].target] && out[k].target !in left)
    && (forall t :: t in combined.Keys - left ==> HasTarget(out, t))
  }

  lemma DrainStep(combined: map<nat, Weight>, out: WeightList, left: set<nat>, t: nat)
    requires Drained(combined, out, left) && t in left && combined[t].target == t
    ensures Drained(combined, out + [combined[t]], left - {t})
  {
    HasTargetGrows(out, combined[t]);
  }

  lemma HasTargetGrows(out: WeightList, w: Weight)
    ensures forall t :: HasTarget(out + [w], t) <==> HasTarget(out, t) || t == w.target
  {
    forall t
      ensures HasTarget(out + [w], t) <==> HasTarget(out, t) || t == w.target
    {
      HasEdgeGrows(out, w, w.kind, t);
    }
  }

  lemma TableStep(table: map<nat, Weight>, ws: WeightList, w: Weight)
    requires Positive(ws) && 0 < w.amount < U64 && Filled(table, ws)
    ensures w.target in table ==> 0 < table[w.target].amount < U64
    ensures Filled(Enter(table, w), ws + [w])
  {
    EntryIsPositive(table, ws, w.target);
    EntersCombined(table, ws, w, Enter(table, w));
    TableSize(table, ws, w, Enter(table, w));
  }

  lemma EntryIsPositive(table: map<nat, Weight>, ws: WeightList, t: nat)
    requires Positive(ws) && TableCombined(table, ws)
    ensures t in table ==> 0 < table[t].amount < U64
  {
    SumToIsPositive(ws, t);
  }

  lemma EntersCombined(table: map<nat, Weight>, ws: WeightList, w: Weight, table': map<nat, Weight>)
    requires Positive(ws) && 0 < w.amount < U64 && TableCombined(table, ws)
    requires (w.target in table ==> 0 < table[w.target].amount < U64) && table' == Enter(table, w)
    ensures TableCombined(table', ws + [w])
  {
    SumAppend(ws, w);
    SumToIsPositive(ws, w.target);
    HasTargetGrows(ws, w);
    forall t | t in table'
      ensures HasEdge(ws + [w], table'[t].kind, t)
    {
      HasEdgeGrows(ws, w, table'[t].kind, t);
    }
  }

  lemma TableSize(table: map<nat, Weight>, ws: WeightList, w: Weight, table': map<nat, Weight>)
    requires TableCombined(table, ws) && table'.Keys == table.Keys + {w.target}
    ensures |table'| == if w.target in table then |table| else |table| + 1
    ensures w.target !in table && Distinct(ws) ==> Distinct(ws + [w])
  {
    assert |table'| == |table'.Keys| && |table| == |table.Keys|;
    assert w.target in table ==> table.Keys + {w.target} == table.Keys;
    assert w.target !in table ==> !HasTarget(ws, w.target);
  }

  lemma DistinctIsCombined(ws: WeightList)
    requires Positive(ws) && Distinct(ws)
    ensures Combined(ws, ws)
  {
    forall i | 0 <= i < |ws|
      ensures SumTo(ws, ws[i].target) == ws[i].amount
    {
      DistinctSumTo(ws, i);
    }
  }

  lemma {:induction false} DistinctSumTo(ws: WeightList, i: nat)
    requires Positive(ws) && Distinct(ws) && i < |ws|
    ensures SumTo(ws, ws[i].target) == ws[i].amount
  {
    var f := Front(ws);
    if i < |f| {
      DistinctSumTo(f, i);
      assert ws[i].target != ws[|ws| - 1].target;
    } else {
      SumToIsPositive(f, ws[i].target);
      assert !HasTarget(f, ws[i].target);
    }
  }

  /** Either way, one weight for each target. */
  method CombineWeights(ws: WeightList) returns (out: WeightList)
    requires Combinable(ws)
    ensures CombinedFrom(out, ws)
  {
    if |ws| > MANY {
      out := CombineWeightsByHashing(ws);
    } else {
      out := CombineWeightsBySorting(ws);
    }
  }

  // ---- scaling down

  /** A weight scaled down by 2^s, but not to nothing. */
  function ScaledDown(amount: nat, s: nat): (r: nat)
    requires s < 64
    ensures r > 0
  {
    var v := ShiftRightAndRound(amount, s);
    if v < 1 then 1 else v
  }

  /** Scaling down and up again adds at most one unit. */
  lemma ScaledDownBound(amount: nat, s: nat)
    requires 0 < s < 64
    ensures ScaledDown(amount, s) * Pow2(s) <= amount + Pow2(s)
  {
    var p := Pow2(s);
    RoundsToNearest(amount, s);
    QuotientBounds(amount + Pow2(s - 1), p, Quotient(amount + Pow2(s - 1), p));
  }

  function AllScaledDown(ws: WeightList, s: nat): (r: WeightList)
    requires s < 64 && forall i :: 0 <= i < |ws| ==> ws[i].amount >= 0
    ensures |r| == |ws|
    ensures forall i :: 0 <= i < |ws| ==> r[i] == ws[i].(amount := ScaledDown(ws[i].amount, s))
  {
    if ws == [] then []
    else AllScaledDown(Front(ws), s) + [Last(ws).(amount := ScaledDown(Last(ws).amount, s))]
  }

  lemma ScaledSumStep(n: nat, a: nat, p: nat, sum: int, amount: nat, c: nat)
    requires n * p <= sum + c * p && a * p <= amount + p
    ensures (n + a) * p <= sum + amount + (c + 1) * p
  {
  }

  lemma ScaledSumNext(f: WeightList, w: Weight, s: nat, p: nat, scaled: WeightList)
    requires 0 < s < 64 && p == Pow2(s) && w.amount >= 0
    requires |f| <= Sum(scaled) && Sum(scaled) * p <= Sum(f) + |f| * p
    ensures var n := Sum(scaled) + ScaledDown(w.amount, s);
            |f| + 1 <= n && n * p <= Sum(f) + w.amount + (|f| + 1) * p
  {
    ScaledDownBound(w.amount, s);
    ScaledSumStep(Sum(scaled), ScaledDown(w.amount, s), p, Sum(f), w.amount, |f|);
  }

  lemma {:induction false} ScaledSumBound(ws: WeightList, s: nat, p: nat)
    requires 0 < s < 64 && p == Pow2(s) && forall i :: 0 <= i < |ws| ==> ws[i].amount >= 0
    ensures |ws| <= Sum(AllScaledDown(ws, s))
    ensures Sum(AllScaledDown(ws, s)) * p <= Sum(ws) + |ws| * p
  {
    if ws != [] {
      var f, w := Front(ws), ws[|ws| - 1];
      var scaled := AllScaledDown(f, s);
      ScaledSumBound(f, s, p);
      ScaledSumNext(f, w, s, p, scaled);
      SumAppend(scaled, w.(amount := ScaledDown(w.amount, s)));
    }
  }

  lemma {:induction false} AmountWithinSum(ws: WeightList, i: nat)
    requires i < |ws| && forall k :: 0 <= k < |ws| ==> ws[k].amount >= 0
    ensures ws[i].amount <= Sum(ws)
  {
    var f, w := Front(ws), ws[|ws| - 1];
    SumIsNonNegative(f);
    if i < |f| {
      AmountWithinSum(f, i);
      assert f[i] == ws[i];
    }
  }

  lemma LessFromProducts(a: nat, b: nat, p: nat)
    requires p > 0 && a * p < b * p
    ensures a < b
  {
  }

  /** Weights that scale into 32 bits together: with room for each to be rounded up. */
  predicate ScalesIntoRange(ws: WeightList) {
    |ws| <= D && Sum(ws) + |ws| * Pow2(33) < 2 * U64
  }

  /** How far to shift: not at all if the total fits into 32 bits, one bit more than needed otherwise. */
  ghost predicate ShiftFor(total: int, overflow: bool, s: nat) {
    if overflow then s == 33
    else if total < U32 then s == 0
    else 2 <= s <= 33 && Pow2(s + 30) <= total < Pow2(s + 31)
  }

  /** Then the sum of the scaled weights fits into 32 bits. */
  lemma ScaledSumFits(ws: WeightList, n: nat, sum: int, s: nat)
    requires (forall i :: 0 <= i < |ws| ==> ws[i].amount >= 0) && |ws| <= n <= D && Sum(ws) <= sum
    requires 0 <= sum && sum + n * Pow2(33) < 2 * U64 && ShiftFor(sum % U64, sum >= U64, s) && s > 0
    ensures Sum(AllScaledDown(ws, s)) < U32
  {
    var p := Pow2(s);
    ScaledSumBound(ws, s, p);
    MulMonotone(|ws|, n, p);
    SumBelow(sum, n, s);
    LessFromProducts(Sum(AllScaledDown(ws, s)), U32, p);
  }

  lemma SumBelow(sum: int, n: nat, s: nat)
    requires 0 <= sum && n <= D && sum + n * Pow2(33) < 2 * U64 && ShiftFor(sum % U64, sum >= U64, s) && s > 0
    ensures sum + n * Pow2(s) < U32 * Pow2(s)
  {
    Pow2Values();
    if sum < U64 {
      Pow2Add(s, 31);
      MulMonotone(n, D, Pow2(s));
      assert D * Pow2(s) + D * Pow2(s) == U32 * Pow2(s);
    } else {
      Pow2Add(32, 1);
    }
  }

  /** Each scaled weight does in any case. */
  lemma ScaledWeightFits(amount: nat, sum: int, s: nat)
    requires amount <= sum && amount < U64 && ShiftFor(sum % U64, sum >= U64, s) && s > 0
    ensures ScaledDown(amount, s) < U32
  {
    var p := Pow2(s);
    ScaledDownBound(amount, s);
    Pow2Values();
    if sum < U64 {
      Pow2Add(s, 31);
    } else {
      Pow2Add(32, 1);
    }
    assert amount < D * p;
    assert D * p + p <= U32 * p;
    LessFromProducts(ScaledDown(amount, s), U32, p);
  }

  // ---- normalising

  /** Every target of the old weights has one weight, from 1 to 2^32 - 1, and together they make
      up total.  Unless there is only one, they are the combined old weights scaled down.  The
      total fits into 32 bits as well if the old weights leave room for rounding. */
  ghost predicate Normalized(ws: WeightList, total: int, was: WeightList) {
    && Distinct(ws) && Sum(ws) == total && (ScalesIntoRange(was) ==> total < U32)
    && (forall i :: 0 <= i < |ws| ==> 0 < ws[i].amount < U32 && HasEdge(was, ws[i].kind, ws[i].target))
    && (forall t :: HasTarget(was, t) ==> HasTarget(ws, t))
    && (|ws| > 1 ==> exists s: nat :: s < 64 && ShiftFor(Sum(was) % U64, Sum(was) >= U64, s) && IsScaling(ws, was, s))
    && (was != [] ==> ws != []) && (|ws| == 1 ==> total == 1)
  }

  /** An amount divided by 2^s and rounded to the nearest, halves upwards, but not to nothing. */
  ghost predicate IsRounded(r: int, amount: int, s: nat) {
    if s == 0 then r == amount
    else
      || (r * Pow2(s) <= amount + Pow2(s - 1) && amount < r * Pow2(s) + Pow2(s - 1))
      || (r == 1 && amount < Pow2(s - 1))
  }

  ghost predicate ScaledAt(ws: WeightList, was: WeightList, s: nat, i: nat) {
    i < |ws| ==> IsRounded(ws[i].amount, Min(FULL, SumTo(was, ws[i].target)), s)
  }

  ghost predicate IsScaling(ws: WeightList, was: WeightList, s: nat) {
    forall i: nat {:trigger ScaledAt(ws, was, s, i)} :: ScaledAt(ws, was, s, i)
  }

  /** This fixes the amount. */
  lemma ScaledIsRounded(amount: nat, s: nat)
    requires 0 < s < 64
    ensures IsRounded(ScaledDown(amount, s), amount, s)
  {
    var p, h := Pow2(s), Pow2(s - 1);
    RoundsToNearest(amount, s);
    QuotientBounds(amount + h, p, Quotient(amount + h, p));
  }

  /** Only greater amounts get greater ones. */
  lemma RoundedFromGreater(r: int, a: int, r': int, a': int, s: nat)
    requires IsRounded(r, a, s) && IsRounded(r', a', s) && 0 < r' < r
    ensures a' < a
  {
    if s > 0 {
      assert Pow2(s) == 2 * Pow2(s - 1);
      MulMonotone(r' + 1, r, Pow2(s));
      MulMonotone(2, r, Pow2(s));
    }
  }

  /** So smaller combined weights never get larger amounts. */
  lemma NormalizedKeepsOrder(ws: WeightList, total: int, was: WeightList, i: nat, j: nat)
    requires Normalized(ws, total, was) && i < |ws| && j < |ws| && ws[j].amount < ws[i].amount
    ensures SumTo(was, ws[j].target) < SumTo(was, ws[i].target)
  {
    var s: nat :| s < 64 && ShiftFor(Sum(was) % U64, Sum(was) >= U64, s) && IsScaling(ws, was, s);
    assert ScaledAt(ws, was, s, i) && ScaledAt(ws, was, s, j);
    RoundedFromGreater(ws[i].amount, Min(FULL, SumTo(was, ws[i].target)), ws[j].amount,
                       Min(FULL, SumTo(was, ws[j].target)), s);
  }

  /** Only one target: it gets everything. */
  lemma NormalizedSingle(out: WeightList, was: WeightList)
    requires CombinedFrom(out, was) && |out| == 1
    ensures Normalized([out[0].(amount := 1)], 1, was)
  {
  }

  lemma NormalizedUnscaled(out: WeightList, was: WeightList, total: int)
    requires CombinedFrom(out, was) && Positive(was) && Sum(was) == total < U32 && |out| != 1
    ensures Normalized(out, total, was)
  {
    CombinedSum(out, was);
    SumIsNonNegative(was);
    forall i | 0 <= i < |out|
      ensures 0 < out[i].amount < U32
    {
      CombinedIsPositive(out, was, i);
      forall k | 0 <= k < |out|
        ensures out[k].amount >= 0
      {
        CombinedIsPositive(out, was, k);
      }
      AmountWithinSum(out, i);
    }
    UnscaledIsScaling(out, was);
    assert ShiftFor(Sum(was) % U64, Sum(was) >= U64, 0);
  }

  lemma UnscaledIsScaling(out: WeightList, was: WeightList)
    requires Combined(out, was)
    ensures IsScaling(out, was, 0)
  {
  }

  lemma CombinedIsPositive(out: WeightList, was: WeightList, i: nat)
    requires Combined(out, was) && Positive(was) && i < |out|
    ensures 0 < out[i].amount < U64
  {
    assert HasEdge(was, out[i].kind, out[i].target);
    assert HasTarget(was, out[i].target);
    SumToIsPositive(was, out[i].target);
  }

  lemma ScaledAreFrom(out: WeightList, was: WeightList, s: nat, ws: WeightList)
    requires CombinedFrom(out, was) && Positive(was) && forall i :: 0 <= i < |out| ==> out[i].amount >= 0
    requires 0 < s < 64 && ShiftFor(Sum(was) % U64, Sum(was) >= U64, s) && ws == AllScaledDown(out, s)
    ensures Distinct(ws)
    ensures forall i :: 0 <= i < |ws| ==> 0 < ws[i].amount < U32 && HasEdge(was, ws[i].kind, ws[i].target)
    ensures forall t :: HasTarget(was, t) ==> HasTarget(ws, t)
  {
    CombinedSum(out, was);
    forall i | 0 <= i < |ws|
      ensures 0 < ws[i].amount < U32
    {
      AmountWithinSum(out, i);
      ScaledWeightFits(out[i].amount, Sum(was), s);
    }
    forall t | HasTarget(was, t)
      ensures HasTarget(ws, t)
    {
      var i :| 0 <= i < |out| && out[i].target == t;
      assert ws[i].target == t;
    }
  }

  lemma ScaledIsScaling(out: WeightList, was: WeightList, s: nat, ws: WeightList)
    requires Combined(out, was) && 0 < s < 64 && forall i :: 0 <= i < |out| ==> out[i].amount >= 0
    requires ws == AllScaledDown(out, s)
    ensures IsScaling(ws, was, s)
  {
    forall i: nat
      ensures ScaledAt(ws, was, s, i)
    {
      if i < |ws| {
        ScaledIsRounded(out[i].amount, s);
      }
    }
  }

  lemma ScaledTotalFits(out: WeightList, was: WeightList, s: nat)
    requires CombinedFrom(out, was) && Positive(was) && forall i :: 0 <= i < |out| ==> out[i].amount >= 0
    requires 0 < s < 64 && ShiftFor(Sum(was) % U64, Sum(was) >= U64, s) && ScalesIntoRange(was)
    ensures Sum(AllScaledDown(out, s)) < U32
  {
    CombinedSum(out, was);
    SumIsNonNegative(was);
    ScaledSumFits(out, |was|, Sum(was), s);
  }

  lemma NormalizedScaled(out: WeightList, was: WeightList, s: nat, ws: WeightList)
    requires CombinedFrom(out, was) && Positive(was) && |out| != 1
    requires forall i :: 0 <= i < |out| ==> out[i].amount >= 0
    requires 0 < s < 64 && ShiftFor(Sum(was) % U64, Sum(was) >= U64, s) && ws == AllScaledDown(out, s)
    ensures Normalized(ws, Sum(ws), was)
  {
    ScaledAreFrom(out, was, s, ws);
    if ScalesIntoRange(was) {
      ScaledTotalFits(out, was, s);
    }
    ScaledIsScaling(out, was, s, ws);
  }

  // ---- the total need not fit into 32 bits

  /** What the last assertion demands of the weights: scaled down, they add up to less than 2^32. */
  ghost predicate TotalFits(was: WeightList) {
    forall ws, total {:trigger Normalized(ws, total, was)} :: Normalized(ws, total, was) ==> total < U32
  }

  /** It is met if there is room for rounding up. */
  lemma InRangeFits(was: WeightList)
    requires ScalesIntoRange(was)
    ensures TotalFits(was)
  {
  }

  /** And by two targets whose sum has overflowed exactly unless both weights are within 2^32 of the
      largest. */
  lemma TwoTargetsFit(v: Weight, w: Weight)
    requires v.target != w.target && 0 < v.amount < U64 && 0 < w.amount < U64 && v.amount + w.amount >= U64
    requires !(v.amount >= U64 - U32 && w.amount >= U64 - U32)
    ensures TotalFits([v, w])
  {
    forall ws, total | Normalized(ws, total, [v, w])
      ensures total < U32
    {
      TwoTargetsFitIff(v, w, ws, total);
    }
  }

  /** With two targets and a sum that has overflowed, it does exactly unless both weights are
      within 2^32 of the largest. */
  lemma TwoTargetsFitIff(v: Weight, w: Weight, ws: WeightList, total: int)
    requires v.target != w.target && 0 < v.amount < U64 && 0 < w.amount < U64 && v.amount + w.amount >= U64
    requires Normalized(ws, total, [v, w])
    ensures total < U32 <==> !(v.amount >= U64 - U32 && w.amount >= U64 - U32)
  {
    TwoNormalized(v, w, ws, total);
    if ws[0].target == v.target {
      TotalOfTwo(ws[0].amount, ws[1].amount, v.amount, w.amount);
    } else {
      TotalOfTwo(ws[0].amount, ws[1].amount, w.amount, v.amount);
    }
  }

  /** Both targets are there, with weights divided by 2^33. */
  lemma TwoNormalized(v: Weight, w: Weight, ws: WeightList, total: int)
    requires v.target != w.target && 0 < v.amount < U64 && 0 < w.amount < U64 && v.amount + w.amount >= U64
    requires Normalized(ws, total, [v, w])
    ensures |ws| == 2 && total == ws[0].amount + ws[1].amount && ws[0].amount > 0 && ws[1].amount > 0
    ensures (ws[0].target, ws[1].target) in {(v.target, w.target), (w.target, v.target)}
    ensures forall i :: 0 <= i < 2 ==>
              IsRounded(ws[i].amount, if ws[i].target == v.target then v.amount else w.amount, 33)
  {
    var was := [v, w];
    SumsOfTwo(v, w);
    assert was[0] == v && was[1] == w;
    assert HasTarget(was, v.target) && HasTarget(was, w.target);
    TwoTargets(ws, v.target, w.target) by {
      forall i | 0 <= i < |ws|
        ensures ws[i].target == v.target || ws[i].target == w.target
      {
        assert HasEdge(was, ws[i].kind, ws[i].target);
      }
    }
    assert IsScaling(ws, was, 33);
    assert ScaledAt(ws, was, 33, 0) && ScaledAt(ws, was, 33, 1);
    SumsOfTwo(ws[0], ws[1]);
    assert ws == [ws[0], ws[1]];
  }

  lemma TotalOfTwo(r: int, r': int, a: nat, a': nat)
    requires 0 < r && 0 < r' && a < U64 && a' < U64 && IsRounded(r, a, 33) && IsRounded(r', a', 33)
    ensures r + r' < U32 <==> !(a >= U64 - U32 && a' >= U64 - U32)
  {
    RoundedByMost(r, a);
    RoundedByMost(r', a');
  }

  lemma SumsOfTwo(v: Weight, w: Weight)
    ensures Sum([v, w]) == v.amount + w.amount
    ensures v.target != w.target ==> SumTo([v, w], v.target) == v.amount && SumTo([v, w], w.target) == w.amount
  {
    SumAppend([], v);
    SumAppend([v], w);
    assert [] + [v] == [v] && [v] + [w] == [v, w];
  }

  lemma TwoTargets(ws: WeightList, t: nat, u: nat)
    requires Distinct(ws) && t != u && HasTarget(ws, t) && HasTarget(ws, u)
    requires forall i :: 0 <= i < |ws| ==> ws[i].target == t || ws[i].target == u
    ensures |ws| == 2 && {ws[0].target, ws[1].target} == {t, u}
  {
    var i :| 0 <= i < |ws| && ws[i].target == t;
    var j :| 0 <= j < |ws| && ws[j].target == u;
    if |ws| > 2 {
      ThreeCoincide(ws, t, u);
    }
  }

  lemma ThreeCoincide(ws: WeightList, t: nat, u: nat)
    requires |ws| > 2 && forall i :: 0 <= i < |ws| ==> ws[i].target == t || ws[i].target == u
    ensures !Distinct(ws)
  {
    assert ws[0].target == ws[1].target || ws[0].target == ws[2].target || ws[1].target == ws[2].target;
  }

  /** Scaled by 2^33 the largest weights are rounded up to 2^31, all others stay below. */
  lemma RoundedByMost(r: int, amount: nat)
    requires IsRounded(r, amount, 33) && amount < U64 && 0 < r
    ensures r <= D && (r == D <==> amount >= U64 - U32)
  {
    Pow2Values();
    assert Pow2(33) == 2 * U32 && Pow2(32) == U32;
  }

  /** Two of the largest weights add up to 2^32. */
  lemma TotalTooLarge(ws: WeightList, total: int)
    requires Normalized(ws, total, [Weight(Local, 1, FULL), Weight(Local, 2, FULL)])
    ensures total >= U32
  {
    TwoTargetsFitIff(Weight(Local, 1, FULL), Weight(Local, 2, FULL), ws, total);
  }

  /** Adds in 64 bits; a total that becomes smaller has overflowed. */
  method AddToTotal(total: int, didOverflow: bool, amount: int, ghost sum: int) returns (newTotal: int, overflow: bool)
    requires 0 <= sum && 0 < amount < U64 && sum + amount < 2 * U64
    requires total == sum % U64 && (didOverflow <==> sum >= U64)
    ensures newTotal == (sum + amount) % U64 && (overflow <==> sum + amount >= U64)
  {
    newTotal := (total + amount) % U64;
    var isOverflow := newTotal < total;
    overflow := didOverflow || isOverflow;
  }

  class Distribution {
    var weights: WeightList
    var total: int
    var didOverflow: bool

    /** Total is the sum in 64 bits; it has not overflowed twice. */
    ghost predicate Valid()
      reads this
    {
      && Positive(weights) && Sum(weights) < 2 * U64
      && total == Sum(weights) % U64 && (didOverflow <==> Sum(weights) >= U64)
    }

    constructor ()
      ensures Valid() && weights == [] && total == 0
    {
      weights, total, didOverflow := [], 0, false;
    }

    /** Adds a weight; the sum must not overflow a second time. */
    method Add(target: nat, amount: int, kind: DistType)
      requires Valid() && 0 < amount < U64 && Sum(weights) + amount < 2 * U64
      modifies this
      ensures Valid() && weights == old(weights) + [Weight(kind, target, amount)]
    {
      SumAppend(weights, Weight(kind, target, amount));
      SumIsNonNegative(weights);
      total, didOverflow := AddToTotal(total, didOverflow, amount, Sum(weights));
      weights := weights + [Weight(kind, target, amount)];
    }

    /** How far the weights have to be shifted. */
    method ComputeShift() returns (s: nat)
      requires 0 <= total < U64
      ensures s < 64 && ShiftFor(total, didOverflow, s)
    {
      s := 0;
      if didOverflow {
        s := 33;
      } else if total >= U32 {
        var z := CountLeadingZeros(total);
        Pow2Values();
        if z > 31 {
          Pow2Monotone(64 - z, 32);
        }
        s := 33 - z;
      }
    }

    method Normalize()
      requires Valid() && OneKindEach(weights)
      modifies this
      ensures Normalized(weights, total, old(weights))
    {
      ghost var was := weights;
      SumIsNonNegative(was);
      if weights == [] {
        return;
      }
      if |weights| > 1 {
        weights := CombineWeights(weights);
      } else {
        DistinctIsCombined(weights);
      }
      if |weights| == 1 {
        NormalizedSingle(weights, was);
        total := 1;
        weights := [weights[0].(amount := 1)];
        return;
      }
      ghost var combined := weights;
      var s := ComputeShift();
      forall i | 0 <= i < |combined|
        ensures 0 < combined[i].amount < U64
      {
        CombinedIsPositive(combined, was, i);
      }
      if s == 0 {
        NormalizedUnscaled(combined, was, total);
        return;
      }
      ScaleDown(s);
      NormalizedScaled(combined, was, s, weights);
    }

    /** Scales every weight down and adds them up again. */
    method ScaleDown(s: nat)
      requires 0 < s < 64 && forall i :: 0 <= i < |weights| ==> weights[i].amount >= 0
      modifies this
      ensures weights == AllScaledDown(old(weights), s) && total == Sum(weights)
    {
      ghost var was, all := weights, AllScaledDown(weights, s);
      total := 0;
      for i := 0 to |weights|
        invariant |weights| == |was| && total == Sum(all[..i])
        invariant forall k :: 0 <= k < |was| ==> weights[k] == if k < i then all[k] else was[k]
      {
        var v := ShiftRightAndRound(weights[i].amount, s);
        weights := weights[i := weights[i].(amount := if v < 1 then 1 else v)];
        SumAppend(all[..i], all[i]);
        assert all[..i + 1] == all[..i] + [all[i]];
        total := total + weights[i].amount;
      }
      assert all[..|all|] == all;
    }
  }
}
