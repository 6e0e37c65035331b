/** Choosing the headers of an irreducible part of a control-flow graph. */
module IrreducibleHeaders {
  import opened Sorting

  /** The position of a block in reverse post-order. */
  type Node = nat

  /** The edges of a node in one list: those that come in, then those that go out. */
  datatype IrrNode = IrrNode(numIn: nat, edges: seq<Node>)

  type Nodes = map<Node, IrrNode>

  predicate Split(nodes: Nodes) {
    forall n :: n in nodes ==> nodes[n].numIn <= |nodes[n].edges|
  }

  function Preds(nodes: Nodes, n: Node): seq<Node>
    requires Split(nodes) && n in nodes
  {
    nodes[n].edges[..nodes[n].numIn]
  }

  function Succs(nodes: Nodes, n: Node): seq<Node>
    requires Split(nodes) && n in nodes
  {
    nodes[n].edges[nodes[n].numIn..]
  }

  /** Every edge is listed at both of its ends, equally often, and both ends are nodes. */
  ghost predicate Mirrored(nodes: Nodes) {
    && Split(nodes) && Closed(nodes)
    && forall a, b :: a in nodes && b in nodes ==> multiset(Succs(nodes, a))[b] == multiset(Preds(nodes, b))[a]
  }

  predicate Closed(nodes: Nodes) {
    forall n, m :: n in nodes && m in nodes[n].edges ==> m in nodes
  }

  /** One edge more. */
  ghost predicate WithEdge(nodes: Nodes, irr: Node, succ: Node, nodes': Nodes)
    requires Split(nodes)
  {
    && Split(nodes') && nodes'.Keys == nodes.Keys
    && forall n :: n in nodes ==>
         && Succs(nodes', n) == Succs(nodes, n) + (if n == irr then [succ] else [])
         && Preds(nodes', n) == (if n == succ then [irr] else []) + Preds(nodes, n)
  }

  lemma EdgesAre(nodes: Nodes, n: Node, m: Node)
    requires Split(nodes) && n in nodes
    ensures m in nodes[n].edges <==> m in Preds(nodes, n) || m in Succs(nodes, n)
  {
    assert nodes[n].edges == Preds(nodes, n) + Succs(nodes, n);
  }

  lemma WithEdgeClosed(nodes: Nodes, irr: Node, succ: Node, nodes': Nodes)
    requires Split(nodes) && Closed(nodes) && irr in nodes && succ in nodes && WithEdge(nodes, irr, succ, nodes')
    ensures Closed(nodes')
  {
    forall n, m | n in nodes' && m in nodes'[n].edges
      ensures m in nodes'
    {
      EdgesAre(nodes, n, m);
      EdgesAre(nodes', n, m);
    }
  }

  /** An edge from irr to succ, added at its ends a and b, is counted once more at both. */
  lemma StillMirrored(succs: seq<Node>, preds: seq<Node>, a: Node, b: Node, irr: Node, succ: Node)
    requires multiset(succs)[b] == multiset(preds)[a]
    ensures multiset(succs + if a == irr then [succ] else [])[b]
         == multiset((if b == succ then [irr] else []) + preds)[a]
  {
  }

  lemma WithEdgeMirrored(nodes: Nodes, irr: Node, succ: Node, nodes': Nodes)
    requires Mirrored(nodes) && irr in nodes && succ in nodes && WithEdge(nodes, irr, succ, nodes')
    ensures Mirrored(nodes')
  {
    WithEdgeClosed(nodes, irr, succ, nodes');
    forall a, b | a in nodes' && b in nodes'
      ensures multiset(Succs(nodes', a))[b] == multiset(Preds(nodes', b))[a]
    {
      StillMirrored(Succs(nodes, a), Preds(nodes, b), a, b, irr, succ);
    }
  }

  class IrreducibleGraph {
    var nodes: Nodes

    ghost predicate Valid()
      reads this
    {
      Mirrored(nodes)
    }

    constructor (blocks: set<Node>)
      ensures Valid() && nodes.Keys == blocks && forall n :: n in nodes ==> nodes[n].edges == []
    {
      nodes := map n | n in blocks :: IrrNode(0, []);
    }

    /** Adds an edge, unless it leaves the graph or leads to a header of the loop around it. */
    method AddEdge(irr: Node, succ: Node, headers: set<Node>)
      requires Valid() && irr in nodes
      modifies this
      ensures Valid()
      ensures if succ !in headers && succ in old(nodes) then WithEdge(old(nodes), irr, succ, nodes)
              else nodes == old(nodes)
    {
      if succ in headers || succ !in nodes {
        return;
      }
      var was := nodes;
      AppendSucc(irr, succ);
      PrependPred(irr, succ);
      WithEdgeMirrored(was, irr, succ, nodes);
    }

    method AppendSucc(irr: Node, succ: Node)
      requires Split(nodes) && irr in nodes
      modifies this
      ensures Split(nodes) && nodes.Keys == old(nodes).Keys
      ensures forall n :: n in nodes ==>
                Succs(nodes, n) == Succs(old(nodes), n) + (if n == irr then [succ] else [])
                  && Preds(nodes, n) == Preds(old(nodes), n)
    {
      var i := nodes[irr];
      nodes := nodes[irr := i.(edges := i.edges + [succ])];
    }

    method PrependPred(irr: Node, succ: Node)
      requires Split(nodes) && succ in nodes
      modifies this
      ensures Split(nodes) && nodes.Keys == old(nodes).Keys
      ensures forall n :: n in nodes ==>
                Succs(nodes, n) == Succs(old(nodes), n)
                  && Preds(nodes, n) == (if n == succ then [irr] else []) + Preds(old(nodes), n)
    {
      var s := nodes[succ];
      nodes := nodes[succ := IrrNode(s.numIn + 1, [irr] + s.edges)];
    }
  }

  // ---- headers, over the predecessors of the nodes of one strongly connected component

  type Component = map<Node, seq<Node>>

  /** Some nodes of a graph, with the predecessors that the graph lists for them. */
  function ComponentOf(nodes: Nodes, scc: set<Node>): Component
    requires Split(nodes) && scc <= nodes.Keys
  {
    map n | n in scc :: Preds(nodes, n)
  }

  /** A path goes around along successors. */
  predicate IsRoundTrip(nodes: Nodes, scc: set<Node>, path: seq<Node>)
    requires Split(nodes) && scc <= nodes.Keys
  {
    && |path| >= 2 && path[0] == path[|path| - 1]
    && (forall i :: 0 <= i < |path| ==> path[i] in scc)
    && forall i :: 0 <= i < |path| - 1 ==> path[i + 1] in Succs(nodes, path[i])
  }

  /** In a graph that lists every edge at both ends, the cycles of a component are the round trips
      along successors, and a node is an entry exactly if it is a successor of a node outside. */
  lemma ComponentOfMirrored(nodes: Nodes, scc: set<Node>, path: seq<Node>, n: Node)
    requires Mirrored(nodes) && scc <= nodes.Keys && n in scc
    ensures IsCycle(ComponentOf(nodes, scc), path) <==> IsRoundTrip(nodes, scc, path)
    ensures IsEntry(ComponentOf(nodes, scc), n) <==> exists p :: p in nodes && p !in scc && n in Succs(nodes, p)
  {
    forall a, b | a in nodes && b in nodes
      ensures b in Succs(nodes, a) <==> a in Preds(nodes, b)
    {
      assert b in multiset(Succs(nodes, a)) <==> a in multiset(Preds(nodes, b));
    }
    assert forall p :: p in Preds(nodes, n) ==> p in nodes[n].edges;
  }

  /** A predecessor lies outside. */
  predicate IsEntry(c: Component, n: Node)
    requires n in c
  {
    exists p :: p in c[n] && p !in c
  }

  /** An edge comes back from a node that is no entry. */
  predicate IsExtra(c: Component, n: Node)
    requires n in c
  {
    exists p :: p in c[n] && p >= n && !(p in c && IsEntry(c, p))
  }

  predicate IsHeader(c: Component, n: Node)
    requires n in c
  {
    IsEntry(c, n) || IsExtra(c, n)
  }

  predicate IsCycle(c: Component, path: seq<Node>) {
    && |path| >= 2 && path[0] == path[|path| - 1]
    && (forall i :: 0 <= i < |path| ==> path[i] in c)
    && forall i :: 0 <= i < |path| - 1 ==> path[i] in c[path[i + 1]]
  }

  /** A least node of a path, other than the first. */
  lemma {:induction false} LeastOnPath(path: seq<Node>) returns (k: nat)
    requires |path| >= 2
    ensures 0 < k < |path| && forall i :: 0 < i < |path| ==> path[k] <= path[i]
  {
    if |path| == 2 {
      k := 1;
    } else {
      var front := path[..|path| - 1];
      k := LeastOnPath(front);
      assert forall i :: 0 < i < |front| ==> front[i] == path[i];
      if path[|path| - 1] < path[k] {
        k := |path| - 1;
      }
    }
  }

  /** Whatever goes around inside the component passes a header. */
  lemma CyclesHaveHeaders(c: Component, path: seq<Node>)
    requires IsCycle(c, path)
    ensures exists i :: 0 <= i < |path| && IsHeader(c, path[i])
  {
    var k := LeastOnPath(path);
    var n, p := path[k], path[k - 1];
    assert p in c[path[k - 1 + 1]];
    assert n <= p by {
      assert k == 1 ==> p == path[|path| - 1];
    }
    if IsEntry(c, p) {
      assert IsHeader(c, path[k - 1]);
    } else {
      assert IsHeader(c, path[k]);
    }
  }

  /** An edge enters the component at n from outside. */
  predicate EntersAt(c: Component, n: Node) {
    n in c && exists p :: p in c[n] && p !in c
  }

  /** An edge that does not go forward leads to n from a node all of whose predecessors lie inside. */
  predicate ComesBackTo(c: Component, n: Node) {
    n in c && exists p :: p in c[n] && n <= p && p in c && forall q :: q in c[p] ==> q in c
  }

  lemma HeadersAre(c: Component, n: Node)
    requires n in c
    ensures IsHeader(c, n) <==> EntersAt(c, n) || ComesBackTo(c, n)
    ensures IsEntry(c, n) <==> EntersAt(c, n)
  {
  }

  /** All edges between nodes of the component that are no entries go forward. */
  predicate GoesForward(c: Component) {
    forall n, p :: n in c && p in c[n] && p in c && !EntersAt(c, n) && !EntersAt(c, p) ==> p < n
  }

  /** Then the headers are the entries, and nothing else. */
  lemma ForwardHeaders(c: Component, n: Node)
    requires GoesForward(c)
    ensures ComesBackTo(c, n) ==> EntersAt(c, n)
  {
    if ComesBackTo(c, n) && !EntersAt(c, n) {
      assert false;
    }
  }

  // ---- the algorithm

  predicate Sorted(s: seq<Node>) {
    forall i, j :: 0 <= i < j < |s| ==> s[i] < s[j]
  }

  predicate NoDuplicates(s: seq<Node>) {
    forall i, j :: 0 <= i < j < |s| ==> s[i] != s[j]
  }

  predicate NoLater(a: Node, b: Node) {
    a <= b
  }

  /** In reverse post-order. */
  function InOrder(s: seq<Node>): seq<Node> {
    Sort(s, NoLater)
  }

  lemma InOrderSorts(s: seq<Node>)
    requires NoDuplicates(s)
    ensures Sorted(InOrder(s)) && forall n :: n in InOrder(s) <==> n in s
  {
    var r := InOrder(s);
    SortIsPermutation(s, NoLater);
    forall n
      ensures n in r <==> n in s
    {
      assert n in multiset(r) <==> n in multiset(s);
    }
    forall i, j | 0 <= i < j < |r|
      ensures r[i] < r[j]
    {
      assert NoLater(r[i], r[j]);
      if r[i] == r[j] {
        TwiceIn(r, i, j);
        OnceIn(s, r[i]);
      }
    }
  }

  lemma TwiceIn(s: seq<Node>, i: nat, j: nat)
    requires i < j < |s| && s[i] == s[j]
    ensures multiset(s)[s[i]] >= 2
  {
    assert s == s[..j] + [s[j]] + s[j + 1..];
    assert s[..j][i] == s[i];
    assert multiset(s) == multiset(s[..j]) + multiset{s[j]} + multiset(s[j + 1..]);
  }

  lemma {:induction false} OnceIn(s: seq<Node>, n: Node)
    requires NoDuplicates(s)
    ensures multiset(s)[n] <= 1
  {
    if s != [] {
      FrontAndLast(s);
      OnceIn(s[..|s| - 1], n);
      if n == s[|s| - 1] {
        assert n !in s[..|s| - 1];
        assert n !in multiset(s[..|s| - 1]);
      }
    }
  }

  /** Whether one of the nodes in the list lies outside the component. */
  method AnyOutside(c: Component, ps: seq<Node>) returns (r: bool)
    ensures r <==> exists p :: p in ps && p !in c
  {
    for i := 0 to |ps|
      invariant forall k :: 0 <= k < i ==> ps[k] in c
    {
      if ps[i] !in c {
        return true;
      }
    }
    return false;
  }

  /** Whether an edge comes back to n from a node that has not been found to be an entry. */
  method AnyComesBack(entry: map<Node, bool>, n: Node, ps: seq<Node>) returns (r: bool)
    ensures r <==> exists p :: p in ps && p >= n && !(p in entry && entry[p])
  {
    for i := 0 to |ps|
      invariant forall k :: 0 <= k < i ==> !(ps[k] >= n && !(ps[k] in entry && entry[ps[k]]))
    {
      if ps[i] < n {
        continue;
      }
      if ps[i] in entry && entry[ps[i]] {
        continue;
      }
      return true;
    }
    return false;
  }

  /** The entries among the first nodes. */
  ghost predicate EntriesFound(c: Component, order: seq<Node>, k: nat, entry: map<Node, bool>, headers: seq<Node>)
    requires k <= |order| && forall n :: n in order <==> n in c
  {
    && entry.Keys == c.Keys && NoDuplicates(headers)
    && (forall n :: n in c ==> (entry[n] <==> n in order[..k] && IsEntry(c, n)))
    && (forall n :: n in headers <==> n in order[..k] && IsEntry(c, n))
  }

  method FindEntries(c: Component, order: seq<Node>) returns (entry: map<Node, bool>, headers: seq<Node>)
    requires NoDuplicates(order) && forall n :: n in order <==> n in c
    ensures EntriesFound(c, order, |order|, entry, headers)
  {
    entry, headers := map n | n in c :: false, [];
    for k := 0 to |order|
      invariant EntriesFound(c, order, k, entry, headers)
    {
      var n := order[k];
      assert n in order;
      NotYet(order, k);
      var isEntry := AnyOutside(c, c[n]);
      if isEntry {
        entry := entry[n := true];
        headers := headers + [n];
      }
    }
  }

  lemma NotYet(order: seq<Node>, k: nat)
    requires NoDuplicates(order) && k < |order|
    ensures order[k] !in order[..k] && forall n :: n in order[..k + 1] <==> n in order[..k] || n == order[k]
  {
  }

  function Elements(s: seq<Node>): set<Node> {
    set n | n in s
  }

  lemma {:induction false} CountElements(s: seq<Node>)
    requires NoDuplicates(s)
    ensures |Elements(s)| == |s|
  {
    if s != [] {
      var front, x := s[..|s| - 1], s[|s| - 1];
      CountElements(front);
      assert s == front + [x];
      assert Elements(s) == Elements(front) + {x};
    }
  }

  /** As many headers as nodes: all nodes are headers. */
  lemma AllListed(headers: seq<Node>, order: seq<Node>)
    requires NoDuplicates(headers) && NoDuplicates(order) && |headers| == |order|
    requires forall n :: n in headers ==> n in order
    ensures forall n :: n in order ==> n in headers
  {
    CountElements(headers);
    CountElements(order);
    var missing := Elements(order) - Elements(headers);
    assert Elements(order) == Elements(headers) + missing;
    forall n | n in order
      ensures n in headers
    {
      assert n in Elements(order);
    }
  }

  /** The further headers among the first nodes, and the nodes that are none. */
  ghost predicate ExtrasFound(c: Component, order: seq<Node>, k: nat, headers: seq<Node>, others: seq<Node>)
    requires k <= |order| && forall n :: n in order <==> n in c
  {
    && headers != [] && NoDuplicates(headers) && NoDuplicates(others)
    && (forall n :: n in headers <==> n in c && (IsEntry(c, n) || (n in order[..k] && IsExtra(c, n))))
    && (forall n :: n in others <==> n in order[..k] && !IsHeader(c, n))
  }

  method FindExtras(c: Component, order: seq<Node>, entry: map<Node, bool>, headers0: seq<Node>)
    returns (headers: seq<Node>, others: seq<Node>)
    requires NoDuplicates(order) && (forall n :: n in order <==> n in c) && headers0 != []
    requires EntriesFound(c, order, |order|, entry, headers0)
    ensures ExtrasFound(c, order, |order|, headers, others)
  {
    assert order[..|order|] == order;
    headers, others := headers0, [];
    for k := 0 to |order|
      invariant ExtrasFound(c, order, k, headers, others)
    {
      headers, others := SortIn(c, order, k, entry, headers0, headers, others);
    }
  }

  /** Puts the next node where it belongs, if it is no entry. */
  method SortIn(c: Component, order: seq<Node>, k: nat, entry: map<Node, bool>, ghost headers0: seq<Node>,
                headers1: seq<Node>, others1: seq<Node>)
    returns (headers: seq<Node>, others: seq<Node>)
    requires NoDuplicates(order) && (forall n :: n in order <==> n in c) && k < |order|
    requires EntriesFound(c, order, |order|, entry, headers0) && ExtrasFound(c, order, k, headers1, others1)
    ensures ExtrasFound(c, order, k + 1, headers, others)
  {
    assert order[..|order|] == order;
    var n := order[k];
    assert n in order;
    NotYet(order, k);
    headers, others := headers1, others1;
    if entry[n] {
      return;
    }
    var isExtra := AnyComesBack(entry, n, c[n]);
    if isExtra {
      headers := headers + [n];
    }
    if headers[|headers| - 1] == n {
      return;
    }
    others := others + [n];
  }

  /** The nodes of the component in two sorted lists.  A node is a header exactly if an edge
      enters the component there or comes back there from a node that is no entry.  It does not
      matter in which order the nodes are looked at. */
  method FindIrreducibleHeaders(c: Component, order: seq<Node>) returns (headers: seq<Node>, others: seq<Node>)
    requires NoDuplicates(order) && forall n :: n in order <==> n in c
    requires exists a, b :: a != b && a in c && b in c && IsEntry(c, a) && IsEntry(c, b)
    ensures Sorted(headers) && Sorted(others)
    ensures forall n :: n in headers <==> EntersAt(c, n) || ComesBackTo(c, n)
    ensures forall n :: n in others <==> n in c && n !in headers
    ensures GoesForward(c) ==> forall n :: n in headers <==> EntersAt(c, n)
    ensures forall path :: IsCycle(c, path) ==> exists i :: 0 <= i < |path| && path[i] in headers
  {
    var entry;
    entry, headers := FindEntries(c, order);
    assert order[..|order|] == order;
    ghost var a :| a in c && IsEntry(c, a);
    assert a in headers;
    others := [];
    if |headers| == |order| {
      AllListed(headers, order);
    } else {
      headers, others := FindExtras(c, order, entry, headers);
    }
    InOrderSorts(headers);
    InOrderSorts(others);
    headers, others := InOrder(headers), InOrder(others);
    forall n | n in c
      ensures n in headers <==> EntersAt(c, n) || ComesBackTo(c, n)
      ensures n in others <==> n !in headers
      ensures GoesForward(c) ==> (n in headers <==> EntersAt(c, n))
    {
      HeadersAre(c, n);
      if GoesForward(c) {
        ForwardHeaders(c, n);
      }
    }
    forall path | IsCycle(c, path)
      ensures exists i :: 0 <= i < |path| && path[i] in headers
    {
      CyclesHaveHeaders(c, path);
    }
  }
}
