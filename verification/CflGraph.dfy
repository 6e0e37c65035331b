/** The program expression graph of the CFL alias analyses: every node is a value
    with a dereference level, every edge a pointer assignment.  Dereference edges
    are implicit: (v, i) lies directly above (v, i+1). */
module CflGraph {
  import opened Options

  /** A value is identified by its address. */
  type Value = nat

  /** AliasAttrs is a bitset of 32 flags; it is kept as the set of flags that are on. */
  type Attr = a: nat | a < 32

  datatype Node = Node(val: Value, level: nat)

  datatype Edge = Edge(other: Node, offset: int)

  datatype NodeInfo = NodeInfo(edges: seq<Edge>, reverseEdges: seq<Edge>, attr: set<Attr>)

  /** The contents of a graph: for every value the infos of its levels 0, 1, ... */
  type Levels = map<Value, seq<NodeInfo>>

  const EMPTY_INFO := NodeInfo([], [], {})

  predicate IsNode(g: Levels, n: Node) {
    n.val in g && n.level < |g[n.val]|
  }

  function Info(g: Levels, n: Node): NodeInfo
    requires IsNode(g, n)
  {
    g[n.val][n.level]
  }

  function Below(n: Node): Node {
    Node(n.val, n.level + 1)
  }

  /** The nodes an edge list leads to. */
  function Others(es: seq<Edge>): set<Node> {
    set e | e in es :: e.other
  }

  /** There is an assignment edge from x to y. */
  predicate Assigns(g: Levels, x: Node, y: Node) {
    IsNode(g, x) && y in Others(Info(g, x).edges)
  }

  /** There is a reverse assignment edge from y to x. */
  predicate AssignedFrom(g: Levels, y: Node, x: Node) {
    IsNode(g, y) && x in Others(Info(g, y).reverseEdges)
  }

  /** The representation invariant the closure relies on: edges join nodes of the graph,
      and the reverse edges mirror the edges. */
  ghost predicate WellFormed(g: Levels) {
    && (forall x, y :: Assigns(g, x, y) ==> IsNode(g, y) && AssignedFrom(g, y, x))
    && (forall x, y :: AssignedFrom(g, y, x) ==> Assigns(g, x, y))
  }

  /** All nodes of a graph. */
  function Nodes(g: Levels): (ns: set<Node>)
    ensures forall n :: n in ns <==> IsNode(g, n)
  {
    set v, i | v in g && 0 <= i < |g[v]| && IsNode(g, Node(v, i)) :: Node(v, i)
  }

  /** What one added edge changes. */
  function WithEdge(g: Levels, from: Node, to: Node, offset: int): Levels
    requires IsNode(g, from) && IsNode(g, to)
  {
    var f := Info(g, from);
    var g1 := g[from.val := g[from.val][from.level := f.(edges := f.edges + [Edge(to, offset)])]];
    var t := Info(g1, to);
    g1[to.val := g1[to.val][to.level := t.(reverseEdges := t.reverseEdges + [Edge(from, offset)])]]
  }

  lemma OthersAppend(es: seq<Edge>, e: Edge)
    ensures Others(es + [e]) == Others(es) + {e.other}
  {
    assert forall d :: d in es + [e] <==> d in es || d == e;
    assert e in es + [e];
  }

  /** Adding an edge adds exactly that assignment, in both directions, even when it is a loop. */
  lemma WithEdgeAssigns(g: Levels, from: Node, to: Node, offset: int)
    requires IsNode(g, from) && IsNode(g, to)
    ensures var g' := WithEdge(g, from, to, offset);
            && (forall n :: IsNode(g', n) <==> IsNode(g, n))
            && (forall x, y :: Assigns(g', x, y) <==> Assigns(g, x, y) || (x == from && y == to))
            && (forall x, y :: AssignedFrom(g', y, x) <==> AssignedFrom(g, y, x) || (x == from && y == to))
            && (forall n :: IsNode(g, n) ==> Info(g', n).attr == Info(g, n).attr)
  {
    var f := Info(g, from);
    OthersAppend(f.edges, Edge(to, offset));
    OthersAppend(Info(g, to).reverseEdges, Edge(from, offset));
  }

  lemma WithEdgeWellFormed(g: Levels, from: Node, to: Node, offset: int)
    requires IsNode(g, from) && IsNode(g, to) && WellFormed(g)
    ensures WellFormed(WithEdge(g, from, to, offset))
  {
    WithEdgeAssigns(g, from, to, offset);
  }

  /** New nodes without edges leave the assignments, and with them the invariant, as they are. */
  lemma SameEdgesWellFormed(g: Levels, g': Levels)
    requires WellFormed(g)
    requires forall n :: IsNode(g, n) ==> IsNode(g', n) && Info(g', n).edges == Info(g, n).edges
                                          && Info(g', n).reverseEdges == Info(g, n).reverseEdges
    requires forall n :: IsNode(g', n) && !IsNode(g, n) ==> Info(g', n).edges == [] && Info(g', n).reverseEdges == []
    ensures WellFormed(g')
    ensures forall x, y :: Assigns(g', x, y) <==> Assigns(g, x, y)
  {
    assert forall x, y :: Assigns(g', x, y) <==> Assigns(g, x, y);
    assert forall x, y :: AssignedFrom(g', y, x) <==> AssignedFrom(g, y, x);
  }

  class CFLGraph {
    var valueImpls: Levels

    ghost predicate Valid()
      reads this
    {
      WellFormed(valueImpls)
    }

    constructor ()
      ensures Valid() && Nodes(valueImpls) == {}
    {
      valueImpls := map[];
    }

    /** Grows the levels of a value so that the node exists, and adds attributes to it.
        Every level above the node comes to exist with it. */
    method AddNode(n: Node, attr: set<Attr>) returns (changed: bool)
      requires Valid()
      modifies this
      ensures Valid()
      ensures changed == !IsNode(old(valueImpls), n)
      ensures forall x :: IsNode(valueImpls, x) <==>
                old(IsNode(valueImpls, x)) || (x.val == n.val && x.level <= n.level)
      ensures forall x, y :: Assigns(valueImpls, x, y) <==> old(Assigns(valueImpls, x, y))
      ensures forall x :: IsNode(valueImpls, x) ==>
                Info(valueImpls, x).attr == (if old(IsNode(valueImpls, x)) then old(Info(valueImpls, x).attr) else {})
                                            + (if x == n then attr else {})
    {
      ghost var g := valueImpls;
      var levels := if n.val in valueImpls then valueImpls[n.val] else [];
      changed := |levels| <= n.level;
      if changed {
        levels := levels + seq(n.level + 1 - |levels|, _ => EMPTY_INFO);
      }
      var info := levels[n.level];
      valueImpls := valueImpls[n.val := levels[n.level := info.(attr := info.attr + attr)]];
      SameEdgesWellFormed(g, valueImpls);
    }

    /** Adds an edge at both of its ends, with its offset; an edge that is added again is listed again. */
    method AddEdge(from: Node, to: Node, offset: int)
      requires Valid() && IsNode(valueImpls, from) && IsNode(valueImpls, to)
      modifies this
      ensures Valid()
      ensures Nodes(valueImpls) == old(Nodes(valueImpls))
      ensures forall x, y :: Assigns(valueImpls, x, y) <==> old(Assigns(valueImpls, x, y)) || (x == from && y == to)
      ensures forall x :: IsNode(valueImpls, x) ==>
                var was, now := old(valueImpls)[x.val][x.level], Info(valueImpls, x);
                && now.attr == was.attr
                && now.edges == was.edges + (if x == from then [Edge(to, offset)] else [])
                && now.reverseEdges == was.reverseEdges + (if x == to then [Edge(from, offset)] else [])
    {
      WithEdgeAssigns(valueImpls, from, to, offset);
      WithEdgeWellFormed(valueImpls, from, to, offset);
      var f := Info(valueImpls, from);
      valueImpls := valueImpls[from.val :=
        valueImpls[from.val][from.level := f.(edges := f.edges + [Edge(to, offset)])]];
      var t := Info(valueImpls, to);
      valueImpls := valueImpls[to.val :=
        valueImpls[to.val][to.level := t.(reverseEdges := t.reverseEdges + [Edge(from, offset)])]];
    }

    /** The edges and attributes of a node, if it exists.  The edges tell all its assignments. */
    method GetNode(n: Node) returns (info: Option<NodeInfo>)
      ensures info.Some? <==> n in Nodes(valueImpls)
      ensures info.Some? ==> info.value.attr == Info(valueImpls, n).attr
      ensures info.Some? ==> forall y :: y in Others(info.value.edges) <==> Assigns(valueImpls, n, y)
      ensures info.Some? ==> forall x :: x in Others(info.value.reverseEdges) <==> AssignedFrom(valueImpls, n, x)
    {
      if n.val !in valueImpls || |valueImpls[n.val]| <= n.level {
        return None;
      }
      info := Some(valueImpls[n.val][n.level]);
    }
  }
}
