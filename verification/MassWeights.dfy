/** Lists of branch weights, and what combining the weights to one target means. */
module MassWeights {
  import opened Powers
  import opened MassArithmetic
  import opened Sorting

  datatype DistType = Local | Exit | Backedge

  datatype Weight = Weight(kind: DistType, target: nat, amount: int)

  type WeightList = seq<Weight>

  function Last(ws: WeightList): Weight
    requires ws != []
  {
    ws[|ws| - 1]
  }

  function Front(ws: WeightList): WeightList
    requires ws != []
  {
    ws[..|ws| - 1]
  }

  function Sum(ws: WeightList): int {
    if ws == [] then 0 else Sum(Front(ws)) + Last(ws).amount
  }

  /** The sum of the weights to one target. */
  function SumTo(ws: WeightList, t: nat): int {
    if ws == [] then 0 else SumTo(Front(ws), t) + if Last(ws).target == t then Last(ws).amount else 0
  }

  lemma SumAppend(ws: WeightList, w: Weight)
    ensures Sum(ws + [w]) == Sum(ws) + w.amount
    ensures forall t :: SumTo(ws + [w], t) == SumTo(ws, t) + if w.target == t then w.amount else 0
  {
  }

  /** Weights are positive 64-bit numbers. */
  predicate Positive(ws: WeightList) {
    forall i :: 0 <= i < |ws| ==> 0 < ws[i].amount < U64
  }

  predicate OneKindEach(ws: WeightList) {
    forall i, j :: 0 <= i < |ws| && 0 <= j < |ws| && ws[i].target == ws[j].target ==> ws[i].kind == ws[j].kind
  }

  predicate Distinct(ws: WeightList) {
    forall i, j :: 0 <= i < j < |ws| ==> ws[i].target != ws[j].target
  }

  predicate HasTarget(ws: WeightList, t: nat) {
    exists i :: 0 <= i < |ws| && ws[i].target == t
  }

  predicate HasEdge(ws: WeightList, kind: DistType, t: nat) {
    exists i :: 0 <= i < |ws| && ws[i].target == t && ws[i].kind == kind
  }

  lemma {:induction false} SumToIsPositive(ws: WeightList, t: nat)
    requires Positive(ws)
    ensures SumTo(ws, t) >= 0 && (HasTarget(ws, t) <==> SumTo(ws, t) > 0)
  {
    if ws != [] {
      SumToIsPositive(Front(ws), t);
      assert ws[|ws| - 1] == Last(ws);
      assert HasTarget(ws, t) <==> HasTarget(Front(ws), t) || Last(ws).target == t;
    }
  }

  // ---- combining

  /** One weight for each target: the sum of all weights to it, if 64 bits can hold that. */
  ghost predicate Combined(out: WeightList, ws: WeightList) {
    && Distinct(out)
    && (forall i :: 0 <= i < |out| ==> out[i].amount == Min(FULL, SumTo(ws, out[i].target)))
    && (forall i :: 0 <= i < |out| ==> HasEdge(ws, out[i].kind, out[i].target))
    && (forall t :: HasTarget(ws, t) ==> HasTarget(out, t))
  }

  /** Adding up in 64 bits, and stopping at the largest number when that overflows. */
  function CombineWeight(w: Weight, other: Weight): (r: Weight)
    requires 0 <= w.amount < U64 && 0 < other.amount < U64
    ensures w.amount == 0 ==> r == other
    ensures w.amount > 0 ==> r == w.(amount := Min(FULL, w.amount + other.amount))
  {
    if w.amount == 0 then other
    else if w.amount > (w.amount + other.amount) % U64 then w.(amount := FULL)
    else w.(amount := (w.amount + other.amount) % U64)
  }

  lemma HasEdgeGrows(ws: WeightList, w: Weight, kind: DistType, t: nat)
    ensures HasEdge(ws + [w], kind, t) <==> HasEdge(ws, kind, t) || (w.kind == kind && w.target == t)
    ensures HasTarget(ws + [w], t) <==> HasTarget(ws, t) || w.target == t
  {
    var all := ws + [w];
    assert all[|ws|] == w && forall i :: 0 <= i < |ws| ==> all[i] == ws[i];
    if HasEdge(ws, kind, t) {
      var i :| 0 <= i < |ws| && ws[i].target == t && ws[i].kind == kind;
      assert all[i].target == t && all[i].kind == kind;
    }
    if HasTarget(ws, t) {
      var i :| 0 <= i < |ws| && ws[i].target == t;
      assert all[i].target == t;
    }
  }

  /** A weight to a new target. */
  lemma CombinedNew(out: WeightList, ws: WeightList, w: Weight)
    requires Positive(ws) && Combined(out, ws) && 0 < w.amount < U64 && !HasTarget(out, w.target)
    ensures Combined(out + [w], ws + [w])
  {
    SumAppend(ws, w);
    SumToIsPositive(ws, w.target);
    forall i | 0 <= i < |out|
      ensures HasEdge(ws + [w], out[i].kind, out[i].target)
    {
      HasEdgeGrows(ws, w, out[i].kind, out[i].target);
    }
    HasEdgeGrows(ws, w, w.kind, w.target);
    forall t | HasTarget(ws + [w], t)
      ensures HasTarget(out + [w], t)
    {
      HasEdgeGrows(ws, w, w.kind, t);
      HasEdgeGrows(out, w, w.kind, t);
    }
  }

  /** One more weight to a target that has one. */
  lemma CombinedMore(out: WeightList, ws: WeightList, k: nat, w: Weight)
    requires Positive(ws) && Combined(out, ws) && 0 < w.amount < U64 && k < |out| && out[k].target == w.target
    ensures 0 < out[k].amount < U64
    ensures Combined(out[k := CombineWeight(out[k], w)], ws + [w])
  {
    SumAppend(ws, w);
    assert HasTarget(ws, w.target);
    SumToIsPositive(ws, w.target);
    var out' := out[k := CombineWeight(out[k], w)];
    forall i | 0 <= i < |out'|
      ensures HasEdge(ws + [w], out'[i].kind, out'[i].target)
    {
      HasEdgeGrows(ws, w, out[i].kind, out[i].target);
    }
    forall t | HasTarget(ws + [w], t)
      ensures HasTarget(out', t)
    {
      HasEdgeGrows(ws, w, w.kind, t);
      var i :| 0 <= i < |out| && out[i].target == t;
      assert out'[i].target == t;
    }
  }

  // ---- the sum of combined weights

  function Without(ws: WeightList, t: nat): WeightList {
    if ws == [] then []
    else if Last(ws).target == t then Without(Front(ws), t)
    else Without(Front(ws), t) + [Last(ws)]
  }

  lemma {:induction false} WithoutSum(ws: WeightList, t: nat)
    ensures Sum(ws) == SumTo(ws, t) + Sum(Without(ws, t))
  {
    if ws != [] {
      WithoutSum(Front(ws), t);
      SumAppend(Without(Front(ws), t), Last(ws));
    }
  }

  lemma {:induction false} WithoutSumTo(ws: WeightList, t: nat, u: nat)
    ensures SumTo(Without(ws, t), u) == if u == t then 0 else SumTo(ws, u)
  {
    if ws != [] {
      WithoutSumTo(Front(ws), t, u);
      SumAppend(Without(Front(ws), t), Last(ws));
    }
  }

  lemma {:induction false} WithoutMember(ws: WeightList, t: nat, i: nat)
    requires i < |Without(ws, t)|
    ensures Without(ws, t)[i] in ws && Without(ws, t)[i].target != t
  {
    if i < |Without(Front(ws), t)| {
      WithoutMember(Front(ws), t, i);
    }
  }

  /** Combining keeps the sum, except for what does not fit into 64 bits. */
  lemma {:induction false} CombinedSum(out: WeightList, ws: WeightList)
    requires Distinct(out) && Positive(ws) && forall t :: HasTarget(ws, t) ==> HasTarget(out, t)
    requires forall i :: 0 <= i < |out| ==> out[i].amount == Min(FULL, SumTo(ws, out[i].target))
    ensures Sum(out) <= Sum(ws) && (Sum(ws) <= FULL ==> Sum(out) == Sum(ws))
  {
    if out == [] {
      if ws != [] {
        assert ws[0].target == ws[0].target;
        assert HasTarget(ws, ws[0].target);
      }
    } else {
      var w := Last(out);
      var rest, ws' := Front(out), Without(ws, w.target);
      WithoutSum(ws, w.target);
      forall t | HasTarget(ws', t)
        ensures HasTarget(rest, t)
      {
        var i :| 0 <= i < |ws'| && ws'[i].target == t;
        WithoutMember(ws, w.target, i);
        assert HasTarget(ws, t);
        HasEdgeGrows(rest, w, w.kind, t);
      }
      forall i | 0 <= i < |rest|
        ensures rest[i].amount == Min(FULL, SumTo(ws', rest[i].target))
      {
        assert rest[i] == out[i] && out[i].target != out[|out| - 1].target;
        WithoutSumTo(ws, w.target, rest[i].target);
      }
      forall i | 0 <= i < |ws'|
        ensures 0 < ws'[i].amount < U64
      {
        WithoutMember(ws, w.target, i);
      }
      CombinedSum(rest, ws');
      SumIsNonNegative(ws');
      SumToIsPositive(ws, w.target);
    }
  }

  lemma {:induction false} SumIsNonNegative(ws: WeightList)
    requires forall i :: 0 <= i < |ws| ==> ws[i].amount >= 0
    ensures Sum(ws) >= 0
  {
    if ws != [] {
      SumIsNonNegative(Front(ws));
      assert ws[|ws| - 1].amount >= 0;
    }
  }

  // ---- sorting

  predicate NoGreaterTarget(a: Weight, b: Weight) {
    a.target <= b.target
  }

  function SortByTarget(ws: WeightList): WeightList {
    Sort(ws, NoGreaterTarget)
  }

  predicate SortedByTarget(ws: WeightList) {
    forall i, j :: 0 <= i < j < |ws| ==> ws[i].target <= ws[j].target
  }

  lemma SortedByTargetIsPermutation(ws: WeightList)
    ensures multiset(SortByTarget(ws)) == multiset(ws) && SortedByTarget(SortByTarget(ws))
  {
    SortIsPermutation(ws, NoGreaterTarget);
    var s := SortByTarget(ws);
    assert forall i, j :: 0 <= i < j < |s| ==> NoGreaterTarget(s[i], s[j]);
  }

  lemma MultisetOfParts(a: WeightList, w: Weight, c: WeightList)
    ensures multiset(a + [w] + c) == multiset(a + c) + multiset{w}
  {
  }

  lemma MultisetCancel(a: multiset<Weight>, b: multiset<Weight>, w: Weight)
    requires a + multiset{w} == b + multiset{w}
    ensures a == b
  {
    forall x
      ensures a[x] == b[x]
    {
      assert (a + multiset{w})[x] == (b + multiset{w})[x];
    }
  }

  lemma PermutationMember(a: WeightList, b: WeightList, i: nat) returns (j: nat)
    requires multiset(a) == multiset(b) && i < |a|
    ensures j < |b| && b[j] == a[i]
  {
    assert a[i] in multiset(b);
    j :| 0 <= j < |b| && b[j] == a[i];
  }

  lemma PermutationSplit(a: WeightList, w: Weight, b: WeightList) returns (l: WeightList, r: WeightList)
    requires multiset(a + [w]) == multiset(b)
    ensures b == l + [w] + r && multiset(a) == multiset(l + r)
  {
    var i := PermutationMember(a + [w], b, |a|);
    l, r := b[..i], b[i + 1..];
    assert b == l + [w] + r;
    MultisetOfParts(l, w, r);
    MultisetCancel(multiset(a), multiset(l + r), w);
  }

  lemma {:induction false} SumsOfPermutation(a: WeightList, b: WeightList)
    requires multiset(a) == multiset(b)
    ensures Sum(a) == Sum(b) && forall t :: SumTo(a, t) == SumTo(b, t)
  {
    if a == [] {
      assert |multiset(b)| == 0;
    } else {
      FrontAndLast(a);
      var l, r := PermutationSplit(Front(a), Last(a), b);
      SumsOfPermutation(Front(a), l + r);
      SumsInserted(l, Last(a), r);
    }
  }

  lemma {:induction false} SumsInserted(a: WeightList, w: Weight, c: WeightList)
    ensures Sum(a + [w] + c) == Sum(a + c) + w.amount
    ensures forall t :: SumTo(a + [w] + c, t) == SumTo(a + c, t) + if w.target == t then w.amount else 0
  {
    if c == [] {
      assert a + [w] + c == a + [w] && a + c == a;
      SumAppend(a, w);
    } else {
      var d := Last(c);
      SumsInserted(a, w, Front(c));
      assert a + [w] + c == (a + [w] + Front(c)) + [d] && a + c == (a + Front(c)) + [d];
      SumAppend(a + [w] + Front(c), d);
      SumAppend(a + Front(c), d);
    }
  }

  lemma PermutationKeeps(a: WeightList, b: WeightList)
    requires multiset(a) == multiset(b)
    ensures Positive(a) ==> Positive(b)
    ensures forall k, t :: HasEdge(a, k, t) ==> HasEdge(b, k, t)
    ensures forall t :: HasTarget(a, t) ==> HasTarget(b, t)
  {
    forall k, t | HasEdge(a, k, t)
      ensures HasEdge(b, k, t)
    {
      var i :| 0 <= i < |a| && a[i].target == t && a[i].kind == k;
      var j := PermutationMember(a, b, i);
    }
    forall t | HasTarget(a, t)
      ensures HasTarget(b, t)
    {
      var i :| 0 <= i < |a| && a[i].target == t;
      var j := PermutationMember(a, b, i);
    }
    if Positive(a) {
      forall j | 0 <= j < |b|
        ensures 0 < b[j].amount < U64
      {
        var i := PermutationMember(b, a, j);
      }
    }
  }

  /** Combining a permutation is combining. */
  lemma CombinedPermuted(out: WeightList, a: WeightList, b: WeightList)
    requires multiset(a) == multiset(b) && Combined(out, a)
    ensures Combined(out, b)
  {
    SumsOfPermutation(a, b);
    PermutationKeeps(a, b);
    PermutationKeeps(b, a);
  }
}
