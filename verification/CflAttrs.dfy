/** Propagation of alias attributes over the value aliases and down the dereference levels. */
module CflAttrs {
  import opened CflGraph
  import opened CflRules
  import opened CflAnders
  import opened Options

  /** An attribute of x is one of y as well: y is a value alias of x, or one level below it. */
  ghost predicate Flows(g: Levels, R: set<Fact>, x: Node, y: Node) {
    Aliases(R, y, x) || (y == Below(x) && IsNode(g, y))
  }

  /** A way along which attributes flow. */
  ghost predicate FlowPath(g: Levels, R: set<Fact>, p: seq<Node>) {
    p != [] && IsNode(g, p[0]) && forall i :: 0 < i < |p| ==> Flows(g, R, p[i - 1], p[i])
  }

  /** Some node that holds the attribute initially leads to n. */
  ghost predicate Inherits(g: Levels, R: set<Fact>, n: Node, a: Attr) {
    exists p :: FlowPath(g, R, p) && p[|p| - 1] == n && a in Info(g, p[0]).attr
  }

  /** The attributes a map gives a node. */
  function AttrsOf(m: map<Node, set<Attr>>, n: Node): set<Attr> {
    if n in m then m[n] else {}
  }

  lemma InheritsInitially(g: Levels, R: set<Fact>, n: Node, a: Attr)
    requires IsNode(g, n) && a in Info(g, n).attr
    ensures Inherits(g, R, n, a)
  {
    assert FlowPath(g, R, [n]);
  }

  lemma InheritsAlong(g: Levels, R: set<Fact>, x: Node, y: Node, a: Attr)
    requires Inherits(g, R, x, a) && Flows(g, R, x, y)
    ensures Inherits(g, R, y, a)
  {
    var p :| FlowPath(g, R, p) && p[|p| - 1] == x && a in Info(g, p[0]).attr;
    var q := p + [y];
    assert FlowPath(g, R, q) && q[|q| - 1] == y;
  }

  // ---- what the worklist maintains

  ghost predicate Initial(g: Levels, m: map<Node, set<Attr>>) {
    forall n :: IsNode(g, n) ==> n in m && Info(g, n).attr <= m[n]
  }

  ghost predicate Sound(g: Levels, R: set<Fact>, m: map<Node, set<Attr>>) {
    forall n, a :: n in m && a in m[n] ==> Inherits(g, R, n, a)
  }

  ghost predicate OverNodes(g: Levels, m: map<Node, set<Attr>>) {
    forall n :: n in m ==> IsNode(g, n)
  }

  /** The attributes of every node that is not pending have flowed on. */
  ghost predicate FlowedUpTo(g: Levels, R: set<Fact>, m: map<Node, set<Attr>>, pending: set<Node>) {
    forall x, y :: IsNode(g, x) && x !in pending && Flows(g, R, x, y) ==> AttrsOf(m, x) <= AttrsOf(m, y)
  }

  ghost predicate Invariant(g: Levels, R: set<Fact>, m: map<Node, set<Attr>>, pending: set<Node>) {
    Initial(g, m) && Sound(g, R, m) && OverNodes(g, m) && FlowedUpTo(g, R, m, pending)
  }

  /** The same for those who only pass it on: it is not looked into unless one asks for Look. */
  ghost predicate Maintained(g: Levels, R: set<Fact>, m: map<Node, set<Attr>>, pending: set<Node>) {
    forall u {:trigger Look(u)} :: Look(u) && u == m ==> Invariant(g, R, u, pending)
  }

  predicate Look(m: map<Node, set<Attr>>) {
    true
  }

  lemma HeldIsInherited(g: Levels, R: set<Fact>, m: map<Node, set<Attr>>, pending: set<Node>, n: Node)
    requires Maintained(g, R, m, pending)
    ensures forall a :: a in AttrsOf(m, n) ==> Inherits(g, R, n, a)
  {
    assert Look(m);
  }

  /** Nothing pending means that exactly the inherited attributes have been found. */
  lemma NothingPendingIsLeast(g: Levels, R: set<Fact>, m: map<Node, set<Attr>>)
    requires Invariant(g, R, m, {}) && R <= AllFacts(g)
    ensures forall n, a :: a in AttrsOf(m, n) <==> Inherits(g, R, n, a)
  {
    forall n, a: Attr | Inherits(g, R, n, a)
      ensures a in AttrsOf(m, n)
    {
      var p :| FlowPath(g, R, p) && p[|p| - 1] == n && a in Info(g, p[0]).attr;
      AttrReachesEnd(g, R, m, p, a);
    }
  }

  lemma {:induction false} AttrReachesEnd(g: Levels, R: set<Fact>, m: map<Node, set<Attr>>, p: seq<Node>, a: Attr)
    requires Invariant(g, R, m, {}) && R <= AllFacts(g) && FlowPath(g, R, p) && a in Info(g, p[0]).attr
    ensures IsNode(g, p[|p| - 1]) && a in AttrsOf(m, p[|p| - 1])
    decreases |p|
  {
    if |p| > 1 {
      var q := p[..|p| - 1];
      assert FlowPath(g, R, q);
      AttrReachesEnd(g, R, m, q, a);
      assert Flows(g, R, p[|p| - 2], p[|p| - 1]);
    }
  }

  /** The pairs a map holds; they can only grow within AllPairs. */
  ghost function Pairs(m: map<Node, set<Attr>>): (ps: set<(Node, Attr)>)
    ensures forall n, a :: (n, a) in ps <==> n in m && a in m[n]
  {
    set n, a | n in m && a in m[n] :: (n, a)
  }

  ghost function AllPairs(g: Levels): (ps: set<(Node, Attr)>)
    ensures forall n, a: Attr :: (n, a) in ps <==> IsNode(g, n)
  {
    assert forall a: Attr :: a in AttrsBelow(32);
    set n, a | n in Nodes(g) && a in AttrsBelow(32) :: (n, a)
  }

  ghost function AttrsBelow(k: nat): (s: set<Attr>)
    requires k <= 32
    ensures forall a: Attr :: a in s <==> a < k
  {
    if k == 0 then {} else AttrsBelow(k - 1) + {k - 1}
  }

  class AliasAttrMap {
    var attrMap: map<Node, set<Attr>>

    constructor ()
      ensures attrMap == map[]
    {
      attrMap := map[];
    }

    method Add(v: Node, attr: set<Attr>) returns (changed: bool)
      modifies this
      ensures attrMap == old(attrMap)[v := AttrsOf(old(attrMap), v) + attr]
      ensures changed == !(attr <= AttrsOf(old(attrMap), v))
    {
      var oldAttr := if v in attrMap then attrMap[v] else {};
      var newAttr := oldAttr + attr;
      changed := oldAttr != newAttr;
      attrMap := attrMap[v := newAttr];
    }

    method GetAttrs(v: Node) returns (attr: set<Attr>)
      ensures attr == AttrsOf(attrMap, v)
    {
      attr := if v in attrMap then attrMap[v] else {};
    }
  }

  /** Adding attributes a node inherits to that node, which becomes pending if it changed. */
  lemma AddStep(g: Levels, R: set<Fact>, m: map<Node, set<Attr>>, pending: set<Node>, y: Node, attr: set<Attr>,
                m': map<Node, set<Attr>>, pending': set<Node>)
    requires Maintained(g, R, m, pending) && IsNode(g, y)
    requires forall a :: a in attr ==> Inherits(g, R, y, a)
    requires m' == m[y := AttrsOf(m, y) + attr]
    requires pending <= pending' && (attr <= AttrsOf(m, y) || y in pending')
    ensures Maintained(g, R, m', pending')
  {
    assert Look(m);
    assert Sound(g, R, m');
    assert FlowedUpTo(g, R, m', pending') by {
      forall x, z | IsNode(g, x) && x !in pending' && Flows(g, R, x, z)
        ensures AttrsOf(m', x) <= AttrsOf(m', z)
      {
        assert AttrsOf(m', x) == AttrsOf(m, x) && AttrsOf(m, z) <= AttrsOf(m', z);
      }
    }
  }

  ghost predicate Grows(m: map<Node, set<Attr>>, m': map<Node, set<Attr>>) {
    forall n :: AttrsOf(m, n) <= AttrsOf(m', n)
  }

  /** The nodes pushed on next are those whose attributes grew. */
  ghost predicate Pushed(m: map<Node, set<Attr>>, m': map<Node, set<Attr>>, next: seq<Node>, next': seq<Node>) {
    Grows(m, m') && next <= next' && (next == next' || Pairs(m) < Pairs(m'))
  }

  function Pending(w: seq<Node>): set<Node> {
    set n | n in w
  }

  /** Adds attributes to a node, which is pushed if that changes what it holds. */
  method AddAndPush(y: Node, attr: set<Attr>, ghost g: Levels, ghost R: set<Fact>, attrMap: AliasAttrMap,
                    nextList: seq<Node>, ghost pending: set<Node>)
    returns (nextList': seq<Node>, changed: bool)
    requires Maintained(g, R, attrMap.attrMap, pending + Pending(nextList))
    requires IsNode(g, y) && forall a :: a in attr ==> Inherits(g, R, y, a)
    modifies attrMap
    ensures Maintained(g, R, attrMap.attrMap, pending + Pending(nextList'))
    ensures attr <= AttrsOf(attrMap.attrMap, y)
    ensures forall n :: n != y ==> AttrsOf(attrMap.attrMap, n) == AttrsOf(old(attrMap.attrMap), n)
    ensures nextList' == if changed then nextList + [y] else nextList
    ensures Pushed(old(attrMap.attrMap), attrMap.attrMap, nextList, nextList')
  {
    ghost var m := attrMap.attrMap;
    changed := attrMap.Add(y, attr);
    nextList' := nextList;
    if changed {
      nextList' := nextList + [y];
      PairsGrow(m, y, attr);
      assert y in Pending(nextList');
    }
    AddStep(g, R, m, pending + Pending(nextList), y, attr, attrMap.attrMap, pending + Pending(nextList'));
  }

  lemma PushedTwice(m: map<Node, set<Attr>>, m1: map<Node, set<Attr>>, m2: map<Node, set<Attr>>,
                    next: seq<Node>, next1: seq<Node>, next2: seq<Node>)
    requires Pushed(m, m1, next, next1) && Pushed(m1, m2, next1, next2)
    ensures Pushed(m, m2, next, next2)
  {
    PairsMonotone(m, m1);
    PairsMonotone(m1, m2);
  }

  lemma PairsMonotone(m: map<Node, set<Attr>>, m': map<Node, set<Attr>>)
    requires Grows(m, m')
    ensures Pairs(m) <= Pairs(m')
  {
    forall n, a: Attr | (n, a) in Pairs(m)
      ensures (n, a) in Pairs(m')
    {
      assert AttrsOf(m, n) <= AttrsOf(m', n);
    }
  }

  lemma InheritsAllAlong(g: Levels, R: set<Fact>, x: Node, y: Node, attr: set<Attr>)
    requires (forall a :: a in attr ==> Inherits(g, R, x, a)) && Flows(g, R, x, y)
    ensures forall a :: a in attr ==> Inherits(g, R, y, a)
  {
    forall a | a in attr
      ensures Inherits(g, R, y, a)
    {
      InheritsAlong(g, R, x, y, a);
    }
  }

  ghost predicate AllHold(m: map<Node, set<Attr>>, ns: set<Node>, attr: set<Attr>) {
    forall y :: y in ns ==> attr <= AttrsOf(m, y)
  }

  lemma AllHoldStep(m: map<Node, set<Attr>>, m': map<Node, set<Attr>>, ns: set<Node>, y: Node, attr: set<Attr>)
    requires AllHold(m, ns, attr) && Grows(m, m') && attr <= AttrsOf(m', y)
    ensures AllHold(m', ns + {y}, attr)
  {
  }

  /** Passes attributes on to the value aliases of a node. */
  method PropagateSameLevel(dst: Node, dstAttr: set<Attr>, g: Levels, reachSet: ReachabilitySet, attrMap: AliasAttrMap,
                            nextList: seq<Node>, ghost pending: set<Node>)
    returns (nextList': seq<Node>)
    requires reachSet.Valid() && reachSet.facts <= AllFacts(g) && (forall f :: f in reachSet.facts ==> f.from != f.to)
    requires Maintained(g, reachSet.facts, attrMap.attrMap, pending + Pending(nextList))
    requires AttrsOf(attrMap.attrMap, dst) == dstAttr
    requires forall a :: a in dstAttr ==> Inherits(g, reachSet.facts, dst, a)
    modifies attrMap
    ensures Maintained(g, reachSet.facts, attrMap.attrMap, pending + Pending(nextList'))
    ensures forall y :: Aliases(reachSet.facts, y, dst) ==> dstAttr <= AttrsOf(attrMap.attrMap, y)
    ensures AttrsOf(attrMap.attrMap, dst) == dstAttr
    ensures Pushed(old(attrMap.attrMap), attrMap.attrMap, nextList, nextList')
  {
    ghost var R, m0 := reachSet.facts, attrMap.attrMap;
    nextList' := nextList;
    var mapping := reachSet.ReachableValueAliases(dst);
    AliasNodes(g, R, mapping, dst);
    var rest := mapping.Keys;
    while rest != {}
      invariant rest <= mapping.Keys
      invariant Maintained(g, R, attrMap.attrMap, pending + Pending(nextList'))
      invariant AllHold(attrMap.attrMap, mapping.Keys - rest, dstAttr)
      invariant AttrsOf(attrMap.attrMap, dst) == dstAttr
      invariant Pushed(m0, attrMap.attrMap, nextList, nextList')
    {
      var src :| src in rest;
      ghost var m1, next1 := attrMap.attrMap, nextList';
      InheritsAllAlong(g, R, dst, src, dstAttr);
      var changed;
      nextList', changed := AddAndPush(src, dstAttr, g, R, attrMap, nextList', pending);
      PushedTwice(m0, m1, attrMap.attrMap, nextList, next1, nextList');
      assert AttrsOf(attrMap.attrMap, dst) == AttrsOf(m1, dst);
      ghost var done := mapping.Keys - rest;
      AllHoldStep(m1, attrMap.attrMap, done, src, dstAttr);
      rest := rest - {src};
      assert mapping.Keys - rest == done + {src};
    }
  }

  lemma AliasNodes(g: Levels, R: set<Fact>, mapping: map<Node, set<MatchState>>, v: Node)
    requires R <= AllFacts(g) && forall f :: f in R ==> f.from != f.to
    requires forall x, s :: x in mapping && s in mapping[x] <==> Fact(x, v, s) in R
    requires forall x :: x in mapping ==> mapping[x] != {}
    ensures forall x :: x in mapping <==> Aliases(R, x, v)
    ensures forall x :: x in mapping ==> IsNode(g, x) && x != v && Flows(g, R, v, x)
  {
  }

  lemma PairsGrow(m: map<Node, set<Attr>>, y: Node, attr: set<Attr>)
    requires !(attr <= AttrsOf(m, y))
    ensures Pairs(m) < Pairs(m[y := AttrsOf(m, y) + attr])
  {
  }

  /** The first level below that lacks an attribute gets them all, and has to pass them on itself. */
  method PropagateBelow(dst: Node, dstAttr: set<Attr>, g: Levels, ghost R: set<Fact>, attrMap: AliasAttrMap,
                        nextList: seq<Node>, ghost pending: set<Node>)
    returns (nextList': seq<Node>)
    requires Maintained(g, R, attrMap.attrMap, pending + Pending(nextList))
    requires AttrsOf(attrMap.attrMap, dst) == dstAttr && forall a :: a in dstAttr ==> Inherits(g, R, dst, a)
    modifies attrMap
    ensures Maintained(g, R, attrMap.attrMap, pending + Pending(nextList'))
    ensures IsNode(g, Below(dst)) ==> dstAttr <= AttrsOf(attrMap.attrMap, Below(dst))
    ensures AttrsOf(attrMap.attrMap, dst) == dstAttr
    ensures Pushed(old(attrMap.attrMap), attrMap.attrMap, nextList, nextList')
  {
    ghost var m0 := attrMap.attrMap;
    nextList' := nextList;
    ghost var above := dst;
    var dstBelow := GetNodeBelow(g, dst);
    while dstBelow.Some?
      invariant dstBelow == if IsNode(g, Below(above)) then Some(Below(above)) else None
      invariant above == dst || (above.val == dst.val && above.level > dst.level
                                 && dstAttr <= AttrsOf(attrMap.attrMap, Below(dst)))
      invariant forall a :: a in dstAttr ==> Inherits(g, R, above, a)
      invariant Maintained(g, R, attrMap.attrMap, pending + Pending(nextList'))
      invariant AttrsOf(attrMap.attrMap, dst) == dstAttr
      invariant Pushed(m0, attrMap.attrMap, nextList, nextList')
      decreases if dstBelow.Some? then 1 + |g[dstBelow.value.val]| - dstBelow.value.level else 0
    {
      var below := dstBelow.value;
      ghost var m1, next1 := attrMap.attrMap, nextList';
      InheritsAllAlong(g, R, above, below, dstAttr);
      var changed;
      nextList', changed := AddAndPush(below, dstAttr, g, R, attrMap, nextList', pending);
      PushedTwice(m0, m1, attrMap.attrMap, nextList, next1, nextList');
      if changed {
        break;
      }
      dstBelow := GetNodeBelow(g, below);
      above := below;
    }
  }

  lemma NodeDone(g: Levels, R: set<Fact>, m: map<Node, set<Attr>>, pending: set<Node>, x: Node)
    requires Maintained(g, R, m, pending + {x})
    requires forall y :: Aliases(R, y, x) ==> AttrsOf(m, x) <= AttrsOf(m, y)
    requires IsNode(g, Below(x)) ==> AttrsOf(m, x) <= AttrsOf(m, Below(x))
    ensures Maintained(g, R, m, pending)
  {
    assert Look(m);
  }

  /** Passes the attributes of one pending node on. */
  method ProcessNode(dst: Node, g: Levels, reachSet: ReachabilitySet, attrMap: AliasAttrMap,
                     nextList: seq<Node>, ghost rest: set<Node>)
    returns (nextList': seq<Node>)
    requires reachSet.Valid() && reachSet.facts <= AllFacts(g) && (forall f :: f in reachSet.facts ==> f.from != f.to)
    requires Maintained(g, reachSet.facts, attrMap.attrMap, rest + {dst} + Pending(nextList))
    modifies attrMap
    ensures Maintained(g, reachSet.facts, attrMap.attrMap, rest + Pending(nextList'))
    ensures Pushed(old(attrMap.attrMap), attrMap.attrMap, nextList, nextList')
  {
    ghost var R, m0 := reachSet.facts, attrMap.attrMap;
    var dstAttr := attrMap.GetAttrs(dst);
    if dstAttr == {} {
      assert rest + {dst} + Pending(nextList) == rest + Pending(nextList) + {dst};
      NodeDone(g, R, m0, rest + Pending(nextList), dst);
      return nextList;
    }
    HeldIsInherited(g, R, m0, rest + {dst} + Pending(nextList), dst);
    var next1 := PropagateSameLevel(dst, dstAttr, g, reachSet, attrMap, nextList, rest + {dst});
    ghost var m1 := attrMap.attrMap;
    nextList' := PropagateBelow(dst, dstAttr, g, R, attrMap, next1, rest + {dst});
    PushedTwice(m0, m1, attrMap.attrMap, nextList, next1, nextList');
    assert rest + {dst} + Pending(nextList') == rest + Pending(nextList') + {dst};
    NodeDone(g, R, attrMap.attrMap, rest + Pending(nextList'), dst);
  }

  /** One pass over the pending nodes. */
  method ProcessNodes(workList: seq<Node>, g: Levels, reachSet: ReachabilitySet, attrMap: AliasAttrMap)
    returns (nextList: seq<Node>)
    requires reachSet.Valid() && reachSet.facts <= AllFacts(g) && (forall f :: f in reachSet.facts ==> f.from != f.to)
    requires Maintained(g, reachSet.facts, attrMap.attrMap, Pending(workList))
    modifies attrMap
    ensures Maintained(g, reachSet.facts, attrMap.attrMap, Pending(nextList))
    ensures Pushed(old(attrMap.attrMap), attrMap.attrMap, [], nextList)
  {
    ghost var m0 := attrMap.attrMap;
    nextList := [];
    assert Pending(workList[0..]) + Pending(nextList) == Pending(workList);
    for i := 0 to |workList|
      invariant Maintained(g, reachSet.facts, attrMap.attrMap, Pending(workList[i..]) + Pending(nextList))
      invariant Pushed(m0, attrMap.attrMap, [], nextList)
    {
      ghost var m1, next1, rest := attrMap.attrMap, nextList, Pending(workList[i + 1..]);
      assert workList[i..] == [workList[i]] + workList[i + 1..];
      assert Pending(workList[i..]) + Pending(nextList) == rest + {workList[i]} + Pending(nextList);
      nextList := ProcessNode(workList[i], g, reachSet, attrMap, nextList, rest);
      PushedTwice(m0, m1, attrMap.attrMap, [], next1, nextList);
    }
    assert Pending(workList[|workList|..]) + Pending(nextList) == Pending(nextList);
  }

  /** Every node starts with its attributes in the graph, and is pending. */
  method InitializeAttrs(g: Levels, attrMap: AliasAttrMap) returns (workList: seq<Node>)
    requires attrMap.attrMap == map[]
    modifies attrMap
    ensures attrMap.attrMap.Keys == Nodes(g) == Pending(workList)
    ensures forall n :: IsNode(g, n) ==> attrMap.attrMap[n] == Info(g, n).attr
  {
    workList := [];
    var rest := g.Keys;
    while rest != {}
      invariant rest <= g.Keys && Pending(workList) == attrMap.attrMap.Keys
      invariant forall n :: n in attrMap.attrMap <==> IsNode(g, n) && n.val !in rest
      invariant forall n :: n in attrMap.attrMap ==> attrMap.attrMap[n] == Info(g, n).attr
    {
      var v :| v in rest;
      rest := rest - {v};
      for i := 0 to |g[v]|
        invariant Pending(workList) == attrMap.attrMap.Keys
        invariant forall n :: n in attrMap.attrMap <==> IsNode(g, n) && n.val !in rest && (n.val == v ==> n.level < i)
        invariant forall n :: n in attrMap.attrMap ==> attrMap.attrMap[n] == Info(g, n).attr
      {
        var changed := attrMap.Add(Node(v, i), g[v][i].attr);
        workList := workList + [Node(v, i)];
      }
    }
  }

  /** The propagation always comes to an end, and then a node has an attribute exactly if some
      node that held it in the graph leads to it. */
  method BuildAttrMap(g: Levels, reachSet: ReachabilitySet) returns (attrMap: AliasAttrMap)
    requires reachSet.Valid() && reachSet.facts <= AllFacts(g) && (forall f :: f in reachSet.facts ==> f.from != f.to)
    ensures fresh(attrMap) && attrMap.attrMap.Keys == Nodes(g)
    ensures forall n, a :: a in AttrsOf(attrMap.attrMap, n) <==> Inherits(g, reachSet.facts, n, a)
  {
    attrMap := new AliasAttrMap();
    var workList := InitializeAttrs(g, attrMap);
    InitialInvariant(g, reachSet.facts, attrMap.attrMap);
    while workList != []
      invariant fresh(attrMap)
      invariant Maintained(g, reachSet.facts, attrMap.attrMap, Pending(workList))
      decreases AllPairs(g) - Pairs(attrMap.attrMap), |workList|
    {
      ghost var m := attrMap.attrMap;
      workList := ProcessNodes(workList, g, reachSet, attrMap);
      assert Look(attrMap.attrMap);
      PairsProgress(g, m, attrMap.attrMap, workList);
    }
    assert Pending(workList) == {} && Look(attrMap.attrMap);
    NothingPendingIsLeast(g, reachSet.facts, attrMap.attrMap);
  }

  lemma InitialInvariant(g: Levels, R: set<Fact>, m: map<Node, set<Attr>>)
    requires m.Keys == Nodes(g) && forall n :: IsNode(g, n) ==> m[n] == Info(g, n).attr
    ensures Maintained(g, R, m, Nodes(g))
  {
    assert m.Keys == Nodes(g);
    forall n, a | n in m && a in m[n]
      ensures Inherits(g, R, n, a)
    {
      InheritsInitially(g, R, n, a);
    }
  }

  /** A pass that leaves work has found a new attribute of some node. */
  lemma PairsProgress(g: Levels, m: map<Node, set<Attr>>, m': map<Node, set<Attr>>, next: seq<Node>)
    requires OverNodes(g, m') && Pushed(m, m', [], next)
    ensures next == [] ==> AllPairs(g) - Pairs(m') <= AllPairs(g) - Pairs(m)
    ensures next != [] ==> AllPairs(g) - Pairs(m') < AllPairs(g) - Pairs(m)
  {
    PairsMonotone(m, m');
    if next != [] {
      var pair :| pair in Pairs(m') && pair !in Pairs(m);
      assert (pair.0, pair.1) in Pairs(m');
      assert pair in AllPairs(g);
    }
  }
}
