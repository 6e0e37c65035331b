/** The worklist of the CFL-Andersen analysis: reachability facts and memory aliases are
    grown in place until nothing is pending, which is exactly the least solution of the rules. */
module CflAnders {
  import opened Options
  import opened CflGraph
  import opened CflRules

  /** The value aliases found so far, indexed by the node that is reached. */
  class ReachabilitySet {
    var reachMap: map<Node, map<Node, set<MatchState>>>
    ghost var facts: set<Fact>

    constructor ()
      ensures Valid() && facts == {}
    {
      reachMap := map[];
      facts := {};
    }

    ghost predicate Holds(f: Fact)
      reads this
    {
      f.to in reachMap && f.from in reachMap[f.to] && f.state in reachMap[f.to][f.from]
    }

    ghost predicate Valid()
      reads this
    {
      && (forall f :: f in facts <==> Holds(f))
      && (forall to, from :: to in reachMap && from in reachMap[to] ==> reachMap[to][from] != {})
    }

    method Insert(from: Node, to: Node, state: MatchState) returns (isNew: bool)
      requires Valid() && from != to
      modifies this
      ensures Valid()
      ensures isNew == (Fact(from, to, state) !in old(facts))
      ensures facts == old(facts) + {Fact(from, to, state)}
    {
      var inner := if to in reachMap then reachMap[to] else map[];
      var states := if from in inner then inner[from] else {};
      isNew := state !in states;
      reachMap := reachMap[to := inner[from := states + {state}]];
      facts := facts + {Fact(from, to, state)};
    }

    /** The pairs of a node and its states that reach v. */
    method ReachableValueAliases(v: Node) returns (aliases: map<Node, set<MatchState>>)
      requires Valid()
      ensures forall x, s :: x in aliases && s in aliases[x] <==> Fact(x, v, s) in facts
      ensures forall x :: x in aliases ==> aliases[x] != {}
    {
      aliases := if v in reachMap then reachMap[v] else map[];
    }
  }

  class AliasMemSet {
    var memMap: map<Node, set<Node>>
    ghost var mems: set<MemAlias>

    constructor ()
      ensures Valid() && mems == {}
    {
      memMap := map[];
      mems := {};
    }

    ghost predicate Holds(m: MemAlias)
      reads this
    {
      m.lhs in memMap && m.rhs in memMap[m.lhs]
    }

    ghost predicate Valid()
      reads this
    {
      forall m :: m in mems <==> Holds(m)
    }

    method Insert(lhs: Node, rhs: Node) returns (isNew: bool)
      requires Valid() && lhs.level > 0 && rhs.level > 0
      modifies this
      ensures Valid()
      ensures isNew == (MemAlias(lhs, rhs) !in old(mems))
      ensures mems == old(mems) + {MemAlias(lhs, rhs)}
    {
      var inner := if lhs in memMap then memMap[lhs] else {};
      isNew := rhs !in inner;
      memMap := memMap[lhs := inner + {rhs}];
      mems := mems + {MemAlias(lhs, rhs)};
    }

    method GetMemoryAliases(v: Node) returns (aliases: set<Node>)
      requires Valid()
      ensures forall x :: x in aliases <==> MemAlias(v, x) in mems
    {
      aliases := if v in memMap then memMap[v] else {};
    }
  }

  // ---- what the worklist maintains

  /** The facts a work list still has to process. */
  function Items(w: seq<Fact>): set<Fact> {
    set f | f in w
  }

  lemma ItemsAppend(w: seq<Fact>, v: seq<Fact>)
    ensures Items(w + v) == Items(w) + Items(v)
  {
  }

  /** All rules hold except for what the pending facts have still to contribute. */
  ghost predicate ClosedUpTo(g: Levels, R: set<Fact>, M: set<MemAlias>, pending: set<Fact>) {
    && ClosedStarts(g, R, M, true)
    && (forall f, f' :: f in R && f !in pending && Extends(g, M, f, f') && Kept(true, f') ==> f' in R)
    && (forall f :: f in R && f !in pending && IsNode(g, Below(f.from)) && IsNode(g, Below(f.to)) ==>
          MemAlias(Below(f.from), Below(f.to)) in M)
  }

  ghost predicate Invariant(g: Levels, R: set<Fact>, M: set<MemAlias>, pending: set<Fact>) {
    && ClosedUpTo(g, R, M, pending)
    && Forced(g, R, M, true)
    && (forall f :: f in R ==> IsNode(g, f.from) && IsNode(g, f.to) && f.from != f.to)
    && pending <= R
  }

  /** The facts that a new memory alias makes of those already known. */
  ghost function MemConsequences(R: set<Fact>, m: MemAlias): (fs: set<Fact>)
    ensures forall f' :: f' in fs <==>
              && f'.from != f'.to && f'.to == m.rhs
              && (f' == Fact(m.lhs, m.rhs, FlowFromMemAliasNoReadWrite)
                  || exists f :: f in R && f.from == f'.from && f.to == m.lhs && Some(f'.state) == MemStep(f.state))
  {
    (if m.lhs == m.rhs then {} else {Fact(m.lhs, m.rhs, FlowFromMemAliasNoReadWrite)}) +
    set f | f in R && f.to == m.lhs && MemStep(f.state).Some? && f.from != m.rhs
      :: Fact(f.from, m.rhs, MemStep(f.state).value)
  }

  lemma MemAliasStep(g: Levels, R: set<Fact>, M: set<MemAlias>, pending: set<Fact>, item: Fact, m: MemAlias)
    requires WellFormed(g) && Invariant(g, R, M, pending) && item in pending
    requires m == MemAlias(Below(item.from), Below(item.to)) && IsNode(g, m.lhs) && IsNode(g, m.rhs)
    ensures var R' := R + MemConsequences(R, m);
            Invariant(g, R', M + {m}, pending + (R' - R))
  {
    var M' := M + {m};
    var R' := R + MemConsequences(R, m);
    assert forall f :: Starts(g, M', f) ==> Starts(g, M, f) || f == Fact(m.lhs, m.rhs, FlowFromMemAliasNoReadWrite);
    assert forall f, f' :: Extends(g, M', f, f') ==>
        || Extends(g, M, f, f')
        || (f.to == m.lhs && f'.to == m.rhs && f'.from == f.from && Some(f'.state) == MemStep(f.state));
    forall R2, M2 | Closed(g, R2, M2, true)
      ensures R' <= R2 && M' <= M2
    {
      assert m in M2;
      forall f' | f' in MemConsequences(R, m)
        ensures f' in R2
      {
        if f' == Fact(m.lhs, m.rhs, FlowFromMemAliasNoReadWrite) {
          assert Starts(g, M2, f');
        } else {
          var f :| f in R && f.from == f'.from && f.to == m.lhs && Some(f'.state) == MemStep(f.state);
          assert Extends(g, M2, f, f');
        }
      }
    }
  }

  lemma ExtensionStep(g: Levels, R: set<Fact>, M: set<MemAlias>, pending: set<Fact>, item: Fact, X: set<Fact>)
    requires WellFormed(g) && Invariant(g, R, M, pending + {item}) && M <= AllMems(g)
    requires IsNode(g, Below(item.from)) && IsNode(g, Below(item.to)) ==>
               MemAlias(Below(item.from), Below(item.to)) in M
    requires forall f :: f in X <==> Extends(g, M, item, f) && Kept(true, f)
    ensures Invariant(g, R + X, M, pending + ((R + X) - R))
  {
    var R' := R + X;
    forall R2, M2 | Closed(g, R2, M2, true)
      ensures R' <= R2 && M <= M2
    {
      MoreMems(g, M, M2);
    }
    forall f | f in X
      ensures IsNode(g, f.from) && IsNode(g, f.to) && f.from != f.to
    {
      assert f.from == item.from;
    }
  }

  lemma NothingPending(g: Levels, R: set<Fact>, M: set<MemAlias>)
    requires Invariant(g, R, M, {})
    ensures IsLeast(g, R, M, true)
  {
  }

  /** The facts X were added, and those of them that were new were put on the work list. */
  ghost predicate Propagated(R: set<Fact>, R': set<Fact>, X: set<Fact>, w: seq<Fact>, w': seq<Fact>) {
    R' == R + X && Items(w') == Items(w) + (R' - R)
  }

  ghost function FactsTo(from: Node, tos: set<Node>, s: MatchState): (fs: set<Fact>)
    ensures forall f :: f in fs <==> f.from == from && f.to in tos && f.to != from && f.state == s
  {
    set y | y in tos && y != from :: Fact(from, y, s)
  }

  // ---- the algorithm

  method Propagate(from: Node, to: Node, state: MatchState, reachSet: ReachabilitySet, workList: seq<Fact>)
    returns (workList': seq<Fact>)
    requires reachSet.Valid()
    modifies reachSet
    ensures reachSet.Valid()
    ensures Propagated(old(reachSet.facts), reachSet.facts, FactsTo(from, {to}, state), workList, workList')
  {
    if from == to {
      return workList;
    }
    var isNew := reachSet.Insert(from, to, state);
    workList' := if isNew then workList + [Fact(from, to, state)] else workList;
    ItemsAppend(workList, [Fact(from, to, state)]);
  }

  lemma FactsToAppend(from: Node, tos: set<Node>, y: Node, s: MatchState)
    ensures FactsTo(from, tos + {y}, s) == FactsTo(from, tos, s) + FactsTo(from, {y}, s)
  {
  }

  lemma PropagatedTwice(R: set<Fact>, R1: set<Fact>, R2: set<Fact>, X: set<Fact>, Y: set<Fact>,
                        w: seq<Fact>, w1: seq<Fact>, w2: seq<Fact>)
    requires Propagated(R, R1, X, w, w1) && Propagated(R1, R2, Y, w1, w2)
    ensures Propagated(R, R2, X + Y, w, w2)
  {
  }

  method PropagateEdges(from: Node, edges: seq<Edge>, state: MatchState, reachSet: ReachabilitySet, workList: seq<Fact>)
    returns (workList': seq<Fact>)
    requires reachSet.Valid()
    modifies reachSet
    ensures reachSet.Valid()
    ensures Propagated(old(reachSet.facts), reachSet.facts, FactsTo(from, Others(edges), state), workList, workList')
  {
    ghost var R := reachSet.facts;
    workList' := workList;
    for i := 0 to |edges|
      invariant reachSet.Valid()
      invariant Propagated(R, reachSet.facts, FactsTo(from, Others(edges[..i]), state), workList, workList')
    {
      ghost var R1, w1, X := reachSet.facts, workList', FactsTo(from, Others(edges[..i]), state);
      workList' := Propagate(from, edges[i].other, state, reachSet, workList');
      PropagatedTwice(R, R1, reachSet.facts, X, FactsTo(from, {edges[i].other}, state), workList, w1, workList');
      OthersAppend(edges[..i], edges[i]);
      assert edges[..i + 1] == edges[..i] + [edges[i]];
      FactsToAppend(from, Others(edges[..i]), edges[i].other, state);
    }
    assert edges[..|edges|] == edges;
  }

  method PropagateMemAliases(from: Node, aliases: set<Node>, state: MatchState, reachSet: ReachabilitySet,
                             workList: seq<Fact>)
    returns (workList': seq<Fact>)
    requires reachSet.Valid()
    modifies reachSet
    ensures reachSet.Valid()
    ensures Propagated(old(reachSet.facts), reachSet.facts, FactsTo(from, aliases, state), workList, workList')
  {
    ghost var R := reachSet.facts;
    workList' := workList;
    var rest := aliases;
    while rest != {}
      invariant reachSet.Valid() && rest <= aliases
      invariant Propagated(R, reachSet.facts, FactsTo(from, aliases - rest, state), workList, workList')
    {
      var y :| y in rest;
      ghost var R1, w1, done := reachSet.facts, workList', aliases - rest;
      workList' := Propagate(from, y, state, reachSet, workList');
      rest := rest - {y};
      PropagatedTwice(R, R1, reachSet.facts, FactsTo(from, done, state), FactsTo(from, {y}, state), workList, w1,
                      workList');
      assert aliases - rest == done + {y};
      FactsToAppend(from, done, y, state);
    }
    assert aliases - rest == aliases;
  }

  method MemAliasPropagate(src: Node, rhs: Node, states: set<MatchState>, fromState: MatchState, toState: MatchState,
                           reachSet: ReachabilitySet, workList: seq<Fact>)
    returns (workList': seq<Fact>)
    requires reachSet.Valid()
    modifies reachSet
    ensures reachSet.Valid()
    ensures Propagated(old(reachSet.facts), reachSet.facts,
                       if fromState in states then FactsTo(src, {rhs}, toState) else {}, workList, workList')
  {
    workList' := workList;
    if fromState in states {
      workList' := Propagate(src, rhs, toState, reachSet, workList');
    }
  }

  /** What the paths from src to m.lhs contribute to a new memory alias m. */
  ghost function ConsequencesFrom(m: MemAlias, src: Node, states: set<MatchState>): set<Fact> {
    (if FlowFromReadOnly in states then FactsTo(src, {m.rhs}, FlowFromMemAliasReadOnly) else {})
    + (if FlowToWriteOnly in states then FactsTo(src, {m.rhs}, FlowToMemAliasWriteOnly) else {})
    + (if FlowToReadWrite in states then FactsTo(src, {m.rhs}, FlowToMemAliasReadWrite) else {})
  }

  method MemAliasPropagateAll(src: Node, m: MemAlias, states: set<MatchState>, reachSet: ReachabilitySet,
                              workList: seq<Fact>)
    returns (workList': seq<Fact>)
    requires reachSet.Valid()
    modifies reachSet
    ensures reachSet.Valid()
    ensures Propagated(old(reachSet.facts), reachSet.facts, ConsequencesFrom(m, src, states), workList, workList')
  {
    ghost var R := reachSet.facts;
    var w1 := MemAliasPropagate(src, m.rhs, states, FlowFromReadOnly, FlowFromMemAliasReadOnly, reachSet, workList);
    ghost var R1 := reachSet.facts;
    var w2 := MemAliasPropagate(src, m.rhs, states, FlowToWriteOnly, FlowToMemAliasWriteOnly, reachSet, w1);
    ghost var R2 := reachSet.facts;
    workList' := MemAliasPropagate(src, m.rhs, states, FlowToReadWrite, FlowToMemAliasReadWrite, reachSet, w2);
    ghost var X1 := if FlowFromReadOnly in states then FactsTo(src, {m.rhs}, FlowFromMemAliasReadOnly) else {};
    ghost var X2 := if FlowToWriteOnly in states then FactsTo(src, {m.rhs}, FlowToMemAliasWriteOnly) else {};
    ghost var X3 := if FlowToReadWrite in states then FactsTo(src, {m.rhs}, FlowToMemAliasReadWrite) else {};
    PropagatedTwice(R, R1, R2, X1, X2, workList, w1, w2);
    PropagatedTwice(R, R2, reachSet.facts, X1 + X2, X3, workList, w2, workList');
  }

  lemma ConsequencesFromFacts(R: set<Fact>, m: MemAlias, src: Node, states: set<MatchState>)
    requires forall s :: s in states <==> Fact(src, m.lhs, s) in R
    ensures forall f' :: f' in ConsequencesFrom(m, src, states) <==>
              f'.from == src && f'.from != f'.to && f'.to == m.rhs
              && (exists s :: Fact(src, m.lhs, s) in R && Some(f'.state) == MemStep(s))
  {
    forall f' | f' in ConsequencesFrom(m, src, states)
      ensures exists s :: Fact(src, m.lhs, s) in R && Some(f'.state) == MemStep(s)
    {
      var s := if f'.state == FlowFromMemAliasReadOnly then FlowFromReadOnly
               else if f'.state == FlowToMemAliasWriteOnly then FlowToWriteOnly else FlowToReadWrite;
      assert Fact(src, m.lhs, s) in R;
    }
  }

  ghost predicate ConsequencesBut(R: set<Fact>, m: MemAlias, rest: set<Node>, X: set<Fact>) {
    forall f' :: f' in X <==>
      (f' in MemConsequences(R, m) && (f' == Fact(m.lhs, m.rhs, FlowFromMemAliasNoReadWrite) || f'.from !in rest))
  }

  lemma ConsequencesStep(R: set<Fact>, m: MemAlias, rest: set<Node>, X: set<Fact>, src: Node, states: set<MatchState>)
    requires ConsequencesBut(R, m, rest, X) && src in rest
    requires forall s :: s in states <==> Fact(src, m.lhs, s) in R
    ensures ConsequencesBut(R, m, rest - {src}, X + ConsequencesFrom(m, src, states))
  {
    ConsequencesFromFacts(R, m, src, states);
    forall f' | f' in ConsequencesFrom(m, src, states)
      ensures f' in MemConsequences(R, m)
    {
      var s :| Fact(src, m.lhs, s) in R && Some(f'.state) == MemStep(s);
      assert Fact(src, m.lhs, s).from == f'.from;
    }
    forall f' | f' in MemConsequences(R, m) && f'.from == src && f' != Fact(m.lhs, m.rhs, FlowFromMemAliasNoReadWrite)
      ensures f' in ConsequencesFrom(m, src, states)
    {
      var f :| f in R && f.from == f'.from && f.to == m.lhs && Some(f'.state) == MemStep(f.state);
      assert f == Fact(src, m.lhs, f.state);
    }
  }

  /** A new memory alias relates the two nodes and extends every path that ends at the first. */
  method PropagateNewMemAlias(lhs: Node, rhs: Node, reachSet: ReachabilitySet, workList: seq<Fact>)
    returns (workList': seq<Fact>)
    requires lhs != rhs
    requires reachSet.Valid()
    modifies reachSet
    ensures reachSet.Valid()
    ensures Propagated(old(reachSet.facts), reachSet.facts, MemConsequences(old(reachSet.facts), MemAlias(lhs, rhs)),
                       workList, workList')
  {
    ghost var R := reachSet.facts;
    var m := MemAlias(lhs, rhs);
    workList' := Propagate(lhs, rhs, FlowFromMemAliasNoReadWrite, reachSet, workList);
    ghost var X := FactsTo(lhs, {rhs}, FlowFromMemAliasNoReadWrite);
    var mapping := reachSet.ReachableValueAliases(lhs);
    var rest := mapping.Keys;
    assert forall x, s :: x in mapping && s in mapping[x] <==> Fact(x, lhs, s) in R;
    while rest != {}
      invariant reachSet.Valid() && rest <= mapping.Keys
      invariant Propagated(R, reachSet.facts, X, workList, workList')
      invariant ConsequencesBut(R, m, rest, X)
    {
      var src :| src in rest;
      ghost var Y := ConsequencesFrom(m, src, mapping[src]);
      ghost var R1, w1 := reachSet.facts, workList';
      workList' := MemAliasPropagateAll(src, m, mapping[src], reachSet, workList');
      PropagatedTwice(R, R1, reachSet.facts, X, Y, workList, w1, workList');
      assert forall s :: s in mapping[src] <==> Fact(src, m.lhs, s) in R;
      ConsequencesStep(R, m, rest, X, src, mapping[src]);
      X := X + Y;
      rest := rest - {src};
    }
    assert X == MemConsequences(R, m);
  }

  method GetNodeBelow(g: Levels, n: Node) returns (below: Option<Node>)
    ensures below == if IsNode(g, Below(n)) then Some(Below(n)) else None
  {
    var nodeBelow := Node(n.val, n.level + 1);
    below := if IsNode(g, nodeBelow) then Some(nodeBelow) else None;
  }

  /** Expands the pairs reached over a new pair whose two nodes have nodes below. */
  method CheckMemoryAliases(item: Fact, g: Levels, reachSet: ReachabilitySet, memSet: AliasMemSet, workList: seq<Fact>,
                            ghost pending: set<Fact>)
    returns (workList': seq<Fact>)
    requires WellFormed(g) && item in pending && Items(workList) <= pending
    requires Invariant(g, reachSet.facts, memSet.mems, pending)
    requires reachSet.Valid() && memSet.Valid()
    modifies reachSet, memSet
    ensures reachSet.Valid() && memSet.Valid()
    ensures Items(workList') == Items(workList) + (reachSet.facts - old(reachSet.facts))
    ensures old(reachSet.facts) <= reachSet.facts
    ensures Invariant(g, reachSet.facts, memSet.mems, pending + Items(workList'))
    ensures IsNode(g, Below(item.from)) && IsNode(g, Below(item.to)) ==>
              MemAlias(Below(item.from), Below(item.to)) in memSet.mems
  {
    workList' := workList;
    ghost var R, M := reachSet.facts, memSet.mems;
    assert pending + Items(workList) == pending;
    var fromNodeBelow := GetNodeBelow(g, item.from);
    var toNodeBelow := GetNodeBelow(g, item.to);
    if fromNodeBelow.Some? && toNodeBelow.Some? {
      var isNew := memSet.Insert(fromNodeBelow.value, toNodeBelow.value);
      if isNew {
        MemAliasStep(g, R, M, pending, item, MemAlias(fromNodeBelow.value, toNodeBelow.value));
        workList' := PropagateNewMemAlias(fromNodeBelow.value, toNodeBelow.value, reachSet, workList');
        assert pending + (reachSet.facts - R) == pending + Items(workList');
      } else {
        assert memSet.mems == M;
      }
    }
  }

  ghost function AliasesOf(M: set<MemAlias>, n: Node): (ns: set<Node>)
    ensures forall y :: y in ns <==> MemAlias(n, y) in M
  {
    set m | m in M && m.lhs == n :: m.rhs
  }

  /** The facts over the edges at a node: reverse assignments, assignments, memory aliases. */
  ghost function NextFacts(from: Node, info: NodeInfo, aliases: set<Node>,
                           revAssign: Option<MatchState>, assign: MatchState, mem: Option<MatchState>): set<Fact> {
    (if revAssign.None? then {} else FactsTo(from, Others(info.reverseEdges), revAssign.value))
    + FactsTo(from, Others(info.edges), assign)
    + (if mem.None? then {} else FactsTo(from, aliases, mem.value))
  }

  /** What the state machine lets follow a fact, edge list by edge list. */
  ghost function Successors(g: Levels, M: set<MemAlias>, item: Fact): set<Fact>
    requires IsNode(g, item.to)
  {
    NextFacts(item.from, Info(g, item.to), AliasesOf(M, item.to),
              RevAssignStep(item.state), AssignStep(item.state), MemStep(item.state))
  }

  lemma SuccessorsExtend(g: Levels, M: set<MemAlias>, item: Fact)
    requires WellFormed(g) && IsNode(g, item.to)
    ensures forall f :: f in Successors(g, M, item) <==> Extends(g, M, item, f) && Kept(true, f)
  {
    assert forall y :: Assigns(g, y, item.to) <==> AssignedFrom(g, item.to, y);
  }

  method NextMemState(from: Node, to: Node, state: MatchState, reachSet: ReachabilitySet, memSet: AliasMemSet,
                      workList: seq<Fact>)
    returns (workList': seq<Fact>)
    requires reachSet.Valid() && memSet.Valid()
    modifies reachSet
    ensures reachSet.Valid()
    ensures Propagated(old(reachSet.facts), reachSet.facts, FactsTo(from, AliasesOf(memSet.mems, to), state), workList,
                       workList')
  {
    var aliases := memSet.GetMemoryAliases(to);
    assert aliases == AliasesOf(memSet.mems, to);
    workList' := PropagateMemAliases(from, aliases, state, reachSet, workList);
  }

  method NextStates(item: Fact, nodeInfo: NodeInfo, revAssign: Option<MatchState>, assign: MatchState,
                    mem: Option<MatchState>, reachSet: ReachabilitySet, memSet: AliasMemSet, workList: seq<Fact>)
    returns (workList': seq<Fact>)
    requires reachSet.Valid() && memSet.Valid()
    modifies reachSet
    ensures reachSet.Valid()
    ensures Propagated(old(reachSet.facts), reachSet.facts,
                       NextFacts(item.from, nodeInfo, AliasesOf(memSet.mems, item.to), revAssign, assign, mem),
                       workList, workList')
  {
    ghost var R := reachSet.facts;
    var w1 := workList;
    ghost var X := {};
    if revAssign.Some? {
      w1 := PropagateEdges(item.from, nodeInfo.reverseEdges, revAssign.value, reachSet, workList);
      X := FactsTo(item.from, Others(nodeInfo.reverseEdges), revAssign.value);
    }
    ghost var R1 := reachSet.facts;
    var w2 := PropagateEdges(item.from, nodeInfo.edges, assign, reachSet, w1);
    ghost var R2, Y := reachSet.facts, FactsTo(item.from, Others(nodeInfo.edges), assign);
    PropagatedTwice(R, R1, R2, X, Y, workList, w1, w2);
    workList' := w2;
    ghost var Z := {};
    if mem.Some? {
      workList' := NextMemState(item.from, item.to, mem.value, reachSet, memSet, w2);
      Z := FactsTo(item.from, AliasesOf(memSet.mems, item.to), mem.value);
    }
    PropagatedTwice(R, R2, reachSet.facts, X + Y, Z, workList, w2, workList');
  }

  /** The core of the state machine: which edges to follow from each state, and to which state. */
  method WalkStateMachine(item: Fact, g: Levels, reachSet: ReachabilitySet, memSet: AliasMemSet, workList: seq<Fact>)
    returns (workList': seq<Fact>)
    requires IsNode(g, item.to) && memSet.Valid() && reachSet.Valid()
    modifies reachSet
    ensures reachSet.Valid()
    ensures Propagated(old(reachSet.facts), reachSet.facts, Successors(g, memSet.mems, item), workList, workList')
  {
    var nodeInfo := Info(g, item.to);
    match item.state {
      case FlowFromReadOnly =>
        workList' := NextStates(item, nodeInfo, Some(FlowFromReadOnly), FlowToReadWrite, Some(FlowFromMemAliasReadOnly),
                                reachSet, memSet, workList);
      case FlowFromMemAliasNoReadWrite =>
        workList' := NextStates(item, nodeInfo, Some(FlowFromReadOnly), FlowToWriteOnly, None, reachSet, memSet,
                                workList);
      case FlowFromMemAliasReadOnly =>
        workList' := NextStates(item, nodeInfo, Some(FlowFromReadOnly), FlowToReadWrite, None, reachSet, memSet,
                                workList);
      case FlowToWriteOnly =>
        workList' := NextStates(item, nodeInfo, None, FlowToWriteOnly, Some(FlowToMemAliasWriteOnly), reachSet, memSet,
                                workList);
      case FlowToReadWrite =>
        workList' := NextStates(item, nodeInfo, None, FlowToReadWrite, Some(FlowToMemAliasReadWrite), reachSet, memSet,
                                workList);
      case FlowToMemAliasWriteOnly =>
        workList' := NextStates(item, nodeInfo, None, FlowToWriteOnly, None, reachSet, memSet, workList);
      case FlowToMemAliasReadWrite =>
        workList' := NextStates(item, nodeInfo, None, FlowToReadWrite, None, reachSet, memSet, workList);
    }
  }

  /** Processes one pending fact: whatever it implies is known or pending afterwards. */
  method ProcessWorkListItem(item: Fact, g: Levels, reachSet: ReachabilitySet, memSet: AliasMemSet, workList: seq<Fact>,
                             ghost rest: set<Fact>)
    returns (workList': seq<Fact>)
    requires WellFormed(g)
    requires Invariant(g, reachSet.facts, memSet.mems, rest + {item} + Items(workList))
    requires reachSet.Valid() && memSet.Valid()
    modifies reachSet, memSet
    ensures reachSet.Valid() && memSet.Valid()
    ensures Invariant(g, reachSet.facts, memSet.mems, rest + Items(workList'))
    ensures old(reachSet.facts) <= reachSet.facts
    ensures Items(workList') == Items(workList) + (reachSet.facts - old(reachSet.facts))
  {
    workList' := CheckMemoryAliases(item, g, reachSet, memSet, workList, rest + {item} + Items(workList));
    ghost var R, w := reachSet.facts, workList';
    assert rest + {item} + Items(workList) + Items(w) == rest + Items(w) + {item};
    workList' := WalkStateMachine(item, g, reachSet, memSet, workList');
    ItemStep(g, R, memSet.mems, rest, item, w, reachSet.facts, workList');
  }

  lemma ItemStep(g: Levels, R: set<Fact>, M: set<MemAlias>, rest: set<Fact>, item: Fact, w: seq<Fact>, R': set<Fact>,
                 w': seq<Fact>)
    requires WellFormed(g) && Invariant(g, R, M, rest + Items(w) + {item})
    requires IsNode(g, Below(item.from)) && IsNode(g, Below(item.to)) ==>
               MemAlias(Below(item.from), Below(item.to)) in M
    requires IsNode(g, item.to) && Propagated(R, R', Successors(g, M, item), w, w')
    ensures Invariant(g, R', M, rest + Items(w'))
  {
    MemNodes(g, R, M);
    SuccessorsExtend(g, M, item);
    ExtensionStep(g, R, M, rest + Items(w), item, Successors(g, M, item));
    assert rest + Items(w) + (R' - R) == rest + Items(w');
  }

  lemma MemNodes(g: Levels, R: set<Fact>, M: set<MemAlias>)
    requires WellFormed(g) && Forced(g, R, M, true)
    ensures M <= AllMems(g) && R <= AllFacts(g)
  {
    AllFactsClosed(g, true);
  }

  // ---- the whole analysis

  /** The facts the assignment edges give at once. */
  ghost function Seeds(g: Levels): (fs: set<Fact>)
    requires WellFormed(g)
    ensures forall f :: f in fs <==> Starts(g, {}, f) && Kept(true, f)
  {
    set f | f in AllFacts(g) && Starts(g, {}, f) && Kept(true, f)
  }

  /** The facts of the edges that leave the first `level` levels of the values in done. */
  ghost function SeedsOf(g: Levels, done: set<Value>, v: Value, level: nat): (fs: set<Fact>)
    requires WellFormed(g)
    ensures forall f :: f in fs <==> f in Seeds(g) && SeededBy(done, v, level, f)
  {
    set f | f in Seeds(g) && SeededBy(done, v, level, f)
  }

  /** The source of the edge behind a seed fact. */
  function EdgeSource(f: Fact): Node {
    if f.state == FlowFromReadOnly then f.to else f.from
  }

  predicate SeededBy(done: set<Value>, v: Value, level: nat, f: Fact) {
    EdgeSource(f).val in done || (EdgeSource(f).val == v && EdgeSource(f).level < level)
  }

  /** The facts of the edges from src to the given nodes. */
  ghost function SeedsAt(src: Node, others: set<Node>): (fs: set<Fact>)
    ensures forall f :: f in fs <==>
              (f.from != f.to && (|| (f.state == FlowFromReadOnly && f.to == src && f.from in others)
                                  || (f.state == FlowToWriteOnly && f.from == src && f.to in others)))
  {
    (set y | y in others && y != src :: Fact(y, src, FlowFromReadOnly)) + FactsTo(src, others, FlowToWriteOnly)
  }

  lemma SeedsAtAppend(src: Node, others: set<Node>, y: Node)
    ensures SeedsAt(src, others + {y}) == SeedsAt(src, others) + SeedsAt(src, {y})
    ensures SeedsAt(src, {y}) == FactsTo(y, {src}, FlowFromReadOnly) + FactsTo(src, {y}, FlowToWriteOnly)
  {
  }

  /** If there is an assignment edge from src to other, then other is reachable from src by an
      assignment, and src from other by a reverse one. */
  method InitializeEdge(src: Node, other: Node, reachSet: ReachabilitySet, workList: seq<Fact>)
    returns (workList': seq<Fact>)
    requires reachSet.Valid()
    modifies reachSet
    ensures reachSet.Valid()
    ensures Propagated(old(reachSet.facts), reachSet.facts, SeedsAt(src, {other}), workList, workList')
  {
    ghost var R := reachSet.facts;
    var w1 := Propagate(other, src, FlowFromReadOnly, reachSet, workList);
    ghost var R1 := reachSet.facts;
    workList' := Propagate(src, other, FlowToWriteOnly, reachSet, w1);
    SeedsAtAppend(src, {}, other);
    PropagatedTwice(R, R1, reachSet.facts, FactsTo(other, {src}, FlowFromReadOnly),
                    FactsTo(src, {other}, FlowToWriteOnly),
                    workList, w1, workList');
  }

  method InitializeNode(src: Node, edges: seq<Edge>, reachSet: ReachabilitySet, workList: seq<Fact>)
    returns (workList': seq<Fact>)
    requires reachSet.Valid()
    modifies reachSet
    ensures reachSet.Valid()
    ensures Propagated(old(reachSet.facts), reachSet.facts, SeedsAt(src, Others(edges)), workList, workList')
  {
    ghost var R := reachSet.facts;
    workList' := workList;
    for i := 0 to |edges|
      invariant reachSet.Valid()
      invariant Propagated(R, reachSet.facts, SeedsAt(src, Others(edges[..i])), workList, workList')
    {
      ghost var R1, w1 := reachSet.facts, workList';
      workList' := InitializeEdge(src, edges[i].other, reachSet, workList');
      ghost var X, Y := SeedsAt(src, Others(edges[..i])), SeedsAt(src, {edges[i].other});
      PropagatedTwice(R, R1, reachSet.facts, X, Y, workList, w1, workList');
      OthersAppend(edges[..i], edges[i]);
      assert edges[..i + 1] == edges[..i] + [edges[i]];
      SeedsAtAppend(src, Others(edges[..i]), edges[i].other);
    }
    assert edges[..|edges|] == edges;
  }

  lemma SeedsOfLevel(g: Levels, done: set<Value>, v: Value, level: nat)
    requires WellFormed(g) && IsNode(g, Node(v, level))
    ensures SeedsOf(g, done, v, level + 1) ==
            SeedsOf(g, done, v, level) + SeedsAt(Node(v, level), Others(Info(g, Node(v, level)).edges))
  {
    var n := Node(v, level);
    forall f | f in SeedsAt(n, Others(Info(g, n).edges))
      ensures f in SeedsOf(g, done, v, level + 1)
    {
      assert Assigns(g, n, if f.state == FlowFromReadOnly then f.from else f.to);
    }
    forall f | f in SeedsOf(g, done, v, level + 1) && f !in SeedsOf(g, done, v, level)
      ensures f in SeedsAt(n, Others(Info(g, n).edges))
    {
      assert EdgeSource(f) == n;
    }
  }

  /** Puts the immediate assignment neighbours of every node on the work list. */
  method InitializeWorkList(g: Levels, reachSet: ReachabilitySet) returns (workList: seq<Fact>)
    requires WellFormed(g) && reachSet.Valid() && reachSet.facts == {}
    modifies reachSet
    ensures reachSet.Valid() && reachSet.facts == Seeds(g) == Items(workList)
  {
    workList := [];
    var rest := g.Keys;
    while rest != {}
      invariant rest <= g.Keys
      invariant reachSet.Valid() && reachSet.facts == SeedsOf(g, g.Keys - rest, 0, 0) == Items(workList)
    {
      var v :| v in rest;
      ghost var done := g.Keys - rest;
      assert SeedsOf(g, done, v, 0) == SeedsOf(g, done, 0, 0);
      for i := 0 to |g[v]|
        invariant reachSet.Valid() && reachSet.facts == SeedsOf(g, done, v, i) == Items(workList)
      {
        workList := InitializeNode(Node(v, i), g[v][i].edges, reachSet, workList);
        SeedsOfLevel(g, done, v, i);
      }
      rest := rest - {v};
      SeedsOfValue(g, done, v);
      assert g.Keys - rest == done + {v};
    }
    assert SeedsOf(g, g.Keys, 0, 0) == Seeds(g);
  }

  lemma SeedsOfValue(g: Levels, done: set<Value>, v: Value)
    requires WellFormed(g) && v in g
    ensures SeedsOf(g, done, v, |g[v]|) == SeedsOf(g, done + {v}, 0, 0)
  {
    forall f | f in Seeds(g) && EdgeSource(f).val == v
      ensures EdgeSource(f).level < |g[v]|
    {
      assert IsNode(g, EdgeSource(f));
    }
  }

  lemma SeedsInvariant(g: Levels)
    requires WellFormed(g)
    ensures Invariant(g, Seeds(g), {}, Seeds(g))
  {
    forall R', M' | Closed(g, R', M', true)
      ensures Seeds(g) <= R'
    {
      MoreMems(g, {}, M');
    }
  }

  /** One pass over the work list: all its items are processed, new facts go to the next list. */
  method ProcessWorkList(workList: seq<Fact>, g: Levels, reachSet: ReachabilitySet, memSet: AliasMemSet)
    returns (nextList: seq<Fact>)
    requires WellFormed(g) && reachSet.Valid() && memSet.Valid()
    requires Invariant(g, reachSet.facts, memSet.mems, Items(workList))
    modifies reachSet, memSet
    ensures reachSet.Valid() && memSet.Valid()
    ensures Invariant(g, reachSet.facts, memSet.mems, Items(nextList))
    ensures old(reachSet.facts) <= reachSet.facts && Items(nextList) == reachSet.facts - old(reachSet.facts)
  {
    ghost var R := reachSet.facts;
    nextList := [];
    assert Items(workList[0..]) + Items(nextList) == Items(workList);
    for i := 0 to |workList|
      invariant reachSet.Valid() && memSet.Valid()
      invariant Invariant(g, reachSet.facts, memSet.mems, Items(workList[i..]) + Items(nextList))
      invariant R <= reachSet.facts && Items(nextList) == reachSet.facts - R
    {
      ghost var rest := Items(workList[i + 1..]);
      ItemsSplit(workList, i, Items(nextList));
      nextList := ProcessWorkListItem(workList[i], g, reachSet, memSet, nextList, rest);
    }
    assert Items(workList[|workList|..]) + Items(nextList) == Items(nextList);
  }

  lemma ItemsSplit(w: seq<Fact>, i: nat, next: set<Fact>)
    requires i < |w|
    ensures Items(w[i..]) + next == Items(w[i + 1..]) + {w[i]} + next
  {
    assert w[i..] == [w[i]] + w[i + 1..];
    ItemsAppend([w[i]], w[i + 1..]);
  }

  /** The work list is driven to the fixpoint: it always empties, and then the two sets are
      the least solution of the rules, whatever order the pairs were found in. */
  method BuildReachability(g: Levels) returns (reachSet: ReachabilitySet, memSet: AliasMemSet)
    requires WellFormed(g)
    ensures fresh(reachSet) && fresh(memSet) && reachSet.Valid() && memSet.Valid()
    ensures IsLeast(g, reachSet.facts, memSet.mems, true)
  {
    reachSet := new ReachabilitySet();
    memSet := new AliasMemSet();
    var workList := InitializeWorkList(g, reachSet);
    SeedsInvariant(g);
    while workList != []
      invariant fresh(reachSet) && fresh(memSet) && reachSet.Valid() && memSet.Valid()
      invariant Invariant(g, reachSet.facts, memSet.mems, Items(workList))
      decreases AllFacts(g) - reachSet.facts, |workList|
    {
      ghost var R := reachSet.facts;
      workList := ProcessWorkList(workList, g, reachSet, memSet);
      Progress(g, R, reachSet.facts, memSet.mems, workList);
    }
    assert Items(workList) == {};
    NothingPending(g, reachSet.facts, memSet.mems);
  }

  /** A pass that leaves work has found a new fact about the nodes of the graph. */
  lemma Progress(g: Levels, R: set<Fact>, R': set<Fact>, M': set<MemAlias>, next: seq<Fact>)
    requires Invariant(g, R', M', Items(next)) && R <= R' && Items(next) == R' - R
    ensures next == [] ==> R == R'
    ensures next != [] ==> AllFacts(g) - R' < AllFacts(g) - R
  {
    if next == [] {
      assert Items(next) == {};
      assert R' == R + (R' - R);
    } else {
      var f := next[0];
      assert f in Items(next);
      assert f in AllFacts(g) - R && f !in AllFacts(g) - R';
    }
  }
}
