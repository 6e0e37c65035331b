/** Finding the back edges of a function by a depth-first search with an explicit stack. */
module CfgBackedges {
  import opened CfgPaths

  /** The search: what has been visited, the stack with the position of the next successor in each
      block, the edges found, the times at which blocks were left, and the edges gone down. */
  datatype Dfs = Dfs(visited: set<Block>, stack: seq<(Block, nat)>, result: seq<Edge>, left: map<Block, nat>,
                     clock: nat, tree: set<Edge>)

  function Blocks(stack: seq<(Block, nat)>): set<Block> {
    set i | 0 <= i < |stack| :: stack[i].0
  }

  function FirstBlocks(n: nat): (r: set<Block>)
    ensures forall b: Block :: b in r <==> b < n
  {
    if n == 0 then {} else FirstBlocks(n - 1) + {n - 1}
  }

  // ---- the invariant

  /** Each block is on the stack once, with a position among its successors, and not left yet. */
  ghost predicate Upright(g: Graph, stack: seq<(Block, nat)>, left: map<Block, nat>) {
    && (forall i :: 0 <= i < |stack| ==> stack[i].0 < |g| && stack[i].1 <= |g[stack[i].0]|)
    && (forall i, j :: 0 <= i < j < |stack| ==> stack[i].0 != stack[j].0)
    && (forall i :: 0 <= i < |stack| ==> stack[i].0 !in left)
  }

  ghost predicate StackOk(g: Graph, s: Dfs) {
    && Upright(g, s.stack, s.left)
    && s.visited == Blocks(s.stack) + s.left.Keys
    && (forall b :: b in s.visited ==> b < |g| && Reaches(g, ENTRY, b))
    && ENTRY in s.visited
  }

  /** Where an edge that was looked at leads: back, to a block left already, or one level down. */
  ghost predicate Accounted(g: Graph, s: Dfs, i: nat, k: nat) {
    i < |s.stack| && k < s.stack[i].1 && s.stack[i].0 < |g| && k < |g[s.stack[i].0]| ==>
      var (b, v) := (s.stack[i].0, g[s.stack[i].0][k]);
      (b, v) in s.result || v in s.left || (i + 1 < |s.stack| && v == s.stack[i + 1].0)
  }

  ghost predicate EdgesOk(g: Graph, s: Dfs) {
    && (forall b :: b in s.left ==> b < |g| && s.left[b] < s.clock)
    && (forall b: Block, v: Block :: b in s.left && IsEdge(g, b, v) ==> (b, v) in s.result || LeftBefore(s, v, b))
    && (forall i: nat, k: nat {:trigger Accounted(g, s, i, k)} :: Accounted(g, s, i, k))
  }

  ghost predicate LeftBefore(s: Dfs, v: Block, b: Block) {
    v in s.left && b in s.left && s.left[v] < s.left[b]
  }

  /** The search went down from each block on the stack to the next. */
  ghost predicate WentDown(s: Dfs, i: nat) {
    i + 1 < |s.stack| ==> (s.stack[i].0, s.stack[i + 1].0) in s.tree
  }

  /** It went down to a block on the stack from the block below only. */
  ghost predicate CameFrom(s: Dfs, i: nat, e: Edge) {
    e in s.tree && i < |s.stack| && s.stack[i].0 == e.1 ==> i > 0 && s.stack[i - 1].0 == e.0
  }

  ghost predicate TreeOk(g: Graph, s: Dfs) {
    && (forall e :: e in s.tree ==> IsEdge(g, e.0, e.1) && e.1 in s.visited && e !in s.result)
    && (forall i: nat {:trigger WentDown(s, i)} :: WentDown(s, i))
    && (forall i: nat, e {:trigger CameFrom(s, i, e)} :: CameFrom(s, i, e))
  }

  /** A path that goes down all the way. */
  ghost predicate TreePath(tree: set<Edge>, path: seq<Block>, a: Block, b: Block) {
    && path != [] && path[0] == a && path[|path| - 1] == b
    && forall i :: 0 <= i < |path| - 1 ==> (path[i], path[i + 1]) in tree
  }

  ghost predicate Closes(s: Dfs, e: Edge) {
    exists path :: TreePath(s.tree, path, e.1, e.0)
  }

  ghost predicate ResultOk(g: Graph, s: Dfs) {
    forall e :: e in s.result ==> IsEdge(g, e.0, e.1) && e.0 in s.visited && e.1 in s.visited && Closes(s, e)
  }

  ghost predicate Invariant(g: Graph, s: Dfs) {
    WellFormed(g) && StackOk(g, s) && EdgesOk(g, s) && TreeOk(g, s) && ResultOk(g, s)
  }

  predicate Look(s: Dfs) {
    true
  }

  /** The invariant for those who only pass it on: it is not looked into unless one asks for Look. */
  ghost predicate Kept(g: Graph, s: Dfs) {
    forall u {:trigger Look(u)} :: Look(u) && u == s ==> Invariant(g, u)
  }

  // ---- the steps of the search

  ghost function Start(g: Graph): Dfs {
    Dfs({ENTRY}, [(ENTRY, 0)], [], map[], 0, {})
  }

  lemma StartOk(g: Graph)
    requires WellFormed(g)
    ensures Invariant(g, Start(g))
  {
    ReachesSelf(g, ENTRY);
    assert Start(g).stack[0].0 == ENTRY;
  }

  /** Looking at a successor that has been visited. */
  ghost function PassBy(g: Graph, s: Dfs): Dfs
    requires s.stack != [] && s.stack[|s.stack| - 1].0 < |g|
    requires s.stack[|s.stack| - 1].1 < |g[s.stack[|s.stack| - 1].0]|
  {
    var top := |s.stack| - 1;
    var (p, i) := s.stack[top];
    var v := g[p][i];
    s.(stack := s.stack[top := (p, i + 1)], result := s.result + if v in Blocks(s.stack) then [(p, v)] else [])
  }

  /** Going down to a successor that has not been visited. */
  ghost function Down(g: Graph, s: Dfs): Dfs
    requires s.stack != [] && s.stack[|s.stack| - 1].0 < |g|
    requires s.stack[|s.stack| - 1].1 < |g[s.stack[|s.stack| - 1].0]|
  {
    var top := |s.stack| - 1;
    var (p, i) := s.stack[top];
    var v := g[p][i];
    s.(stack := s.stack[top := (p, i + 1)] + [(v, 0)], visited := s.visited + {v}, tree := s.tree + {(p, v)})
  }

  /** Leaving a block all of whose successors have been looked at. */
  ghost function Up(s: Dfs): Dfs
    requires s.stack != []
  {
    var top := |s.stack| - 1;
    s.(stack := s.stack[..top], left := s.left[s.stack[top].0 := s.clock], clock := s.clock + 1)
  }

  function BlocksOf(stack: seq<(Block, nat)>): (r: seq<Block>)
    ensures |r| == |stack| && forall i :: 0 <= i < |r| ==> r[i] == stack[i].0
  {
    seq(|stack|, i requires 0 <= i < |stack| => stack[i].0)
  }

  /** The blocks on the stack from a block on are a way down from it to the top. */
  lemma StackCloses(g: Graph, s: Dfs, m: nat, e: Edge)
    requires TreeOk(g, s) && m < |s.stack| && e == (s.stack[|s.stack| - 1].0, s.stack[m].0)
    ensures Closes(s, e)
  {
    var path := BlocksOf(s.stack)[m..];
    forall i | 0 <= i < |path| - 1
      ensures (path[i], path[i + 1]) in s.tree
    {
      assert WentDown(s, m + i);
    }
    assert TreePath(s.tree, path, e.1, e.0);
  }

  lemma ClosesStill(s: Dfs, s': Dfs, e: Edge)
    requires Closes(s, e) && s.tree <= s'.tree
    ensures Closes(s', e)
  {
    var path :| TreePath(s.tree, path, e.1, e.0);
    assert TreePath(s'.tree, path, e.1, e.0);
  }

  /** The block on top and the position of its next successor. */
  ghost predicate AtTop(g: Graph, s: Dfs, top: nat, p: Block, i: nat) {
    |s.stack| == top + 1 && s.stack[top] == (p, i) && p < |g| && i <= |g[p]|
  }

  lemma PassByStack(g: Graph, s: Dfs, top: nat, p: Block, i: nat, s': Dfs)
    requires StackOk(g, s) && AtTop(g, s, top, p, i) && i < |g[p]| && s' == PassBy(g, s)
    ensures StackOk(g, s') && Blocks(s'.stack) == Blocks(s.stack)
  {
    assert forall k :: 0 <= k < |s.stack| ==> s'.stack[k].0 == s.stack[k].0;
    forall b
      ensures b in Blocks(s'.stack) <==> b in Blocks(s.stack)
    {
      if b in Blocks(s.stack) {
        var k :| 0 <= k < |s.stack| && s.stack[k].0 == b;
        assert s'.stack[k].0 == b;
      }
    }
  }

  lemma PassByAccounted(g: Graph, s: Dfs, top: nat, p: Block, i: nat, s': Dfs, j: nat, k: nat)
    requires StackOk(g, s) && AtTop(g, s, top, p, i) && i < |g[p]| && s' == PassBy(g, s) && g[p][i] in s.visited
    requires Accounted(g, s, j, k)
    ensures Accounted(g, s', j, k)
  {
    if j == top && k == i {
      assert g[p][i] in Blocks(s.stack) || g[p][i] in s.left;
    }
  }

  lemma PassByEdges(g: Graph, s: Dfs, top: nat, p: Block, i: nat, s': Dfs)
    requires StackOk(g, s) && EdgesOk(g, s) && AtTop(g, s, top, p, i) && i < |g[p]| && s' == PassBy(g, s)
    requires g[p][i] in s.visited
    ensures EdgesOk(g, s')
  {
    forall j: nat, k: nat
      ensures Accounted(g, s', j, k)
    {
      assert Accounted(g, s, j, k);
      PassByAccounted(g, s, top, p, i, s', j, k);
    }
    forall b: Block, v: Block | b in s'.left && IsEdge(g, b, v)
      ensures (b, v) in s'.result || LeftBefore(s', v, b)
    {
      assert (b, v) in s.result || LeftBefore(s, v, b);
    }
  }

  /** A successor on the stack is not one the search went down to from here. */
  lemma PassByNewEdge(g: Graph, s: Dfs, top: nat, p: Block, i: nat, v: Block)
    requires TreeOk(g, s) && Upright(g, s.stack, s.left) && AtTop(g, s, top, p, i) && v in Blocks(s.stack)
    ensures (p, v) !in s.tree
  {
    var m :| 0 <= m < |s.stack| && s.stack[m].0 == v;
    assert CameFrom(s, m, (p, v));
    assert m > 0 ==> s.stack[m - 1].0 != s.stack[top].0;
  }

  lemma PassByTree(g: Graph, s: Dfs, top: nat, p: Block, i: nat, s': Dfs)
    requires StackOk(g, s) && TreeOk(g, s) && AtTop(g, s, top, p, i) && i < |g[p]| && s' == PassBy(g, s)
    ensures TreeOk(g, s')
  {
    forall j: nat
      ensures WentDown(s', j)
    {
      assert WentDown(s, j);
    }
    forall j: nat, e
      ensures CameFrom(s', j, e)
    {
      assert CameFrom(s, j, e);
    }
    if g[p][i] in Blocks(s.stack) {
      PassByNewEdge(g, s, top, p, i, g[p][i]);
    }
  }

  lemma PassByResult(g: Graph, s: Dfs, top: nat, p: Block, i: nat, s': Dfs)
    requires StackOk(g, s) && TreeOk(g, s) && ResultOk(g, s) && AtTop(g, s, top, p, i) && i < |g[p]|
    requires s' == PassBy(g, s)
    ensures ResultOk(g, s')
  {
    var v := g[p][i];
    assert p in Blocks(s.stack);
    forall e | e in s'.result
      ensures Closes(s', e) && IsEdge(g, e.0, e.1) && e.0 in s.visited && e.1 in s.visited
    {
      if e !in s.result {
        var m :| 0 <= m < |s.stack| && s.stack[m].0 == v;
        StackCloses(g, s, m, e);
      }
      ClosesStill(s, s', e);
    }
  }

  lemma PassByOk(g: Graph, s: Dfs, top: nat, p: Block, i: nat, s': Dfs)
    requires Kept(g, s) && AtTop(g, s, top, p, i) && i < |g[p]| && s' == PassBy(g, s) && g[p][i] in s.visited
    ensures Kept(g, s') && Blocks(s'.stack) == Blocks(s.stack)
  {
    assert Look(s);
    PassByStack(g, s, top, p, i, s');
    PassByEdges(g, s, top, p, i, s');
    PassByTree(g, s, top, p, i, s');
    PassByResult(g, s, top, p, i, s');
  }

  lemma DownUpright(g: Graph, stack: seq<(Block, nat)>, left: map<Block, nat>, top: nat, p: Block, i: nat, v: Block)
    requires WellFormed(g) && Upright(g, stack, left) && |stack| == top + 1 && stack[top] == (p, i) && i < |g[p]|
    requires v == g[p][i] && v !in Blocks(stack) && v !in left
    ensures Upright(g, stack[top := (p, i + 1)] + [(v, 0)], left)
  {
    assert v < |g|;
    forall k | 0 <= k < |stack|
      ensures stack[k].0 != v
    {
      assert stack[k].0 in Blocks(stack);
    }
  }

  lemma DownStack(g: Graph, s: Dfs, top: nat, p: Block, i: nat, v: Block, s': Dfs)
    requires WellFormed(g) && StackOk(g, s) && AtTop(g, s, top, p, i) && i < |g[p]| && s' == Down(g, s)
    requires v == g[p][i] && v !in s.visited
    ensures StackOk(g, s') && Blocks(s'.stack) == Blocks(s.stack) + {v}
  {
    assert p in Blocks(s.stack);
    ReachesEdge(g, p, v);
    ReachesTransitive(g, ENTRY, p, v);
    DownUpright(g, s.stack, s.left, top, p, i, v);
    DownBlocks(s, top, p, i, v, s');
  }

  lemma DownBlocks(s: Dfs, top: nat, p: Block, i: nat, v: Block, s': Dfs)
    requires |s.stack| == top + 1 && s.stack[top] == (p, i) && s'.stack == s.stack[top := (p, i + 1)] + [(v, 0)]
    ensures Blocks(s'.stack) == Blocks(s.stack) + {v}
  {
    forall b
      ensures b in Blocks(s'.stack) <==> b in Blocks(s.stack) || b == v
    {
      if b in Blocks(s.stack) {
        var k :| 0 <= k < |s.stack| && s.stack[k].0 == b;
        assert s'.stack[k].0 == b;
      }
      assert s'.stack[top + 1].0 == v;
    }
  }

  lemma DownEdges(g: Graph, s: Dfs, top: nat, p: Block, i: nat, s': Dfs)
    requires EdgesOk(g, s) && AtTop(g, s, top, p, i) && i < |g[p]| && s' == Down(g, s)
    ensures EdgesOk(g, s')
  {
    forall j: nat, k: nat
      ensures Accounted(g, s', j, k)
    {
      assert Accounted(g, s, j, k);
    }
    forall b: Block, v: Block | b in s'.left && IsEdge(g, b, v)
      ensures (b, v) in s'.result || LeftBefore(s', v, b)
    {
      assert (b, v) in s.result || LeftBefore(s, v, b);
    }
  }

  lemma DownCameFrom(g: Graph, s: Dfs, top: nat, p: Block, i: nat, v: Block, s': Dfs, j: nat, e: Edge)
    requires StackOk(g, s) && TreeOk(g, s) && AtTop(g, s, top, p, i) && v !in s.visited
    requires s'.stack == s.stack[top := (p, i + 1)] + [(v, 0)] && s'.tree == s.tree + {(p, v)}
    ensures CameFrom(s', j, e)
  {
    assert CameFrom(s, j, e);
    assert j < |s.stack| ==> s.stack[j].0 in Blocks(s.stack);
  }

  lemma DownTree(g: Graph, s: Dfs, top: nat, p: Block, i: nat, s': Dfs)
    requires StackOk(g, s) && TreeOk(g, s) && ResultOk(g, s) && AtTop(g, s, top, p, i) && i < |g[p]|
    requires s' == Down(g, s) && g[p][i] !in s.visited
    ensures TreeOk(g, s')
  {
    forall j: nat
      ensures WentDown(s', j)
    {
      assert WentDown(s, j);
    }
    forall j: nat, e
      ensures CameFrom(s', j, e)
    {
      DownCameFrom(g, s, top, p, i, g[p][i], s', j, e);
    }
  }

  lemma DownOk(g: Graph, s: Dfs, top: nat, p: Block, i: nat, v: Block, s': Dfs)
    requires Kept(g, s) && AtTop(g, s, top, p, i) && i < |g[p]| && s' == Down(g, s) && v == g[p][i] && v !in s.visited
    ensures Kept(g, s') && Blocks(s'.stack) == Blocks(s.stack) + {v}
  {
    assert Look(s);
    DownStack(g, s, top, p, i, v, s');
    DownEdges(g, s, top, p, i, s');
    DownTree(g, s, top, p, i, s');
    forall e | e in s'.result
      ensures Closes(s', e)
    {
      ClosesStill(s, s', e);
    }
  }

  lemma UpBlocks(g: Graph, s: Dfs, top: nat, p: Block, i: nat, s': Dfs)
    requires StackOk(g, s) && AtTop(g, s, top, p, i) && s' == Up(s)
    ensures Blocks(s'.stack) == Blocks(s.stack) - {p}
  {
  }

  lemma UpEdges(g: Graph, s: Dfs, top: nat, p: Block, i: nat, s': Dfs)
    requires StackOk(g, s) && EdgesOk(g, s) && AtTop(g, s, top, p, i) && i == |g[p]| && s' == Up(s)
    ensures EdgesOk(g, s')
  {
    forall b: Block, v: Block | b in s'.left && IsEdge(g, b, v)
      ensures (b, v) in s'.result || LeftBefore(s', v, b)
    {
      if b == p {
        var k :| 0 <= k < |g[p]| && g[p][k] == v;
        assert Accounted(g, s, top, k);
      } else {
        assert (b, v) in s.result || LeftBefore(s, v, b);
      }
    }
    forall j: nat, k: nat
      ensures Accounted(g, s', j, k)
    {
      assert Accounted(g, s, j, k);
    }
  }

  lemma UpTree(g: Graph, s: Dfs, top: nat, p: Block, i: nat, s': Dfs)
    requires TreeOk(g, s) && AtTop(g, s, top, p, i) && s' == Up(s)
    ensures TreeOk(g, s')
  {
    forall j: nat
      ensures WentDown(s', j)
    {
      assert WentDown(s, j);
    }
    forall j: nat, e
      ensures CameFrom(s', j, e)
    {
      assert CameFrom(s, j, e);
    }
  }

  lemma UpOk(g: Graph, s: Dfs, top: nat, p: Block, i: nat, s': Dfs)
    requires Kept(g, s) && AtTop(g, s, top, p, i) && i == |g[p]| && s' == Up(s)
    ensures Kept(g, s') && Blocks(s'.stack) == Blocks(s.stack) - {p}
  {
    assert Look(s);
    UpBlocks(g, s, top, p, i, s');
    UpEdges(g, s, top, p, i, s');
    UpTree(g, s, top, p, i, s');
    forall e | e in s'.result
      ensures Closes(s', e)
    {
      ClosesStill(s, s', e);
    }
  }

  // ---- what the edges found are good for

  /** Every cycle that can be reached from the entry uses one of the edges. */
  ghost predicate CutsAllCycles(g: Graph, result: seq<Edge>) {
    forall c :: IsPath(g, c) && |c| >= 2 && c[0] == c[|c| - 1] && Reaches(g, ENTRY, c[0]) ==> UsesEdge(result, c)
  }

  ghost predicate UsesEdge(result: seq<Edge>, c: seq<Block>) {
    exists i :: 0 <= i < |c| - 1 && (c[i], c[i + 1]) in result
  }

  /** The edge can be reached and closes a cycle that uses no other of the edges. */
  ghost predicate ClosesCycle(g: Graph, result: seq<Edge>, e: Edge) {
    && IsEdge(g, e.0, e.1) && Reaches(g, ENTRY, e.0)
    && exists path :: Connects(g, path, e.1, e.0) && !UsesEdge(result, path)
  }

  lemma {:induction false} UnreportedPathDescends(g: Graph, s: Dfs, path: seq<Block>)
    requires Invariant(g, s) && s.stack == [] && IsPath(g, path) && |path| >= 2 && path[0] in s.left
    requires !UsesEdge(s.result, path)
    ensures LeftBefore(s, path[|path| - 1], path[0])
  {
    assert IsEdge(g, path[0], path[0 + 1]) && (path[0], path[0 + 1]) !in s.result;
    assert LeftBefore(s, path[1], path[0]);
    if |path| > 2 {
      var rest := path[1..];
      forall i | 0 <= i < |rest| - 1
        ensures IsEdge(g, rest[i], rest[i + 1]) && (rest[i], rest[i + 1]) !in s.result
      {
        assert IsEdge(g, path[i + 1], path[i + 1 + 1]) && (path[i + 1], path[i + 1 + 1]) !in s.result;
      }
      UnreportedPathDescends(g, s, rest);
    }
  }

  /** All that can be reached has been visited. */
  lemma AllReachedLeft(g: Graph, s: Dfs, b: Block)
    requires Invariant(g, s) && s.stack == [] && Reaches(g, ENTRY, b)
    ensures b in s.left
  {
    forall a, v | a in s.visited && IsEdge(g, a, v)
      ensures v in s.visited
    {
      assert (a, v) in s.result || LeftBefore(s, v, a);
    }
    ReachedIsInside(g, s.visited, ENTRY, b);
  }

  lemma EndCutsAllCycles(g: Graph, s: Dfs)
    requires Invariant(g, s) && s.stack == []
    ensures CutsAllCycles(g, s.result)
  {
    forall c | IsPath(g, c) && |c| >= 2 && c[0] == c[|c| - 1] && Reaches(g, ENTRY, c[0])
      ensures UsesEdge(s.result, c)
    {
      AllReachedLeft(g, s, c[0]);
      if !UsesEdge(s.result, c) {
        UnreportedPathDescends(g, s, c);
      }
    }
  }

  lemma EndClosesCycles(g: Graph, s: Dfs, e: Edge)
    requires Invariant(g, s) && e in s.result
    ensures ClosesCycle(g, s.result, e)
  {
    var path :| TreePath(s.tree, path, e.1, e.0);
    forall i | 0 <= i < |path| - 1
      ensures IsEdge(g, path[i], path[i + 1]) && (path[i], path[i + 1]) !in s.result
    {
      assert (path[i], path[i + 1]) in s.tree;
    }
    forall i | 0 <= i < |path|
      ensures path[i] < |g|
    {
      if i < |path| - 1 {
        assert IsEdge(g, path[i], path[i + 1]);
      }
    }
    assert Connects(g, path, e.1, e.0);
  }

  lemma NoSuccessorsNoCycles(g: Graph)
    requires WellFormed(g) && g[ENTRY] == []
    ensures CutsAllCycles(g, [])
  {
    forall c | IsPath(g, c) && |c| >= 2
      ensures !Reaches(g, ENTRY, c[0])
    {
      assert IsEdge(g, c[0], c[0 + 1]);
      assert c[0] != ENTRY;
      if Reaches(g, ENTRY, c[0]) {
        ReachedIsInside(g, {ENTRY}, ENTRY, c[0]);
      }
    }
  }

  /** Goes through the successors of the top block up to one that has not been visited. */
  method NextSuccessor(g: Graph, parentBB: Block, i0: nat, visited: set<Block>, inStack: set<Block>,
                       result0: seq<Edge>, ghost s0: Dfs)
    returns (foundNew: bool, bb: Block, i: nat, result: seq<Edge>, ghost s: Dfs)
    requires Kept(g, s0) && s0.stack != [] && s0.stack[|s0.stack| - 1] == (parentBB, i0)
    requires s0.visited == visited && s0.result == result0 && inStack == Blocks(s0.stack)
    requires parentBB < |g| && i0 <= |g[parentBB]|
    ensures Kept(g, s) && s.visited == visited && s.result == result
    ensures i <= |g[parentBB]| && (foundNew ==> i > 0 && g[parentBB][i - 1] == bb && bb !in visited)
    ensures s.stack == s0.stack[|s0.stack| - 1 := (parentBB, if foundNew then i - 1 else i)]
    ensures !foundNew ==> i == |g[parentBB]|
    ensures Blocks(s.stack) == inStack
  {
    foundNew, bb, i, result, s := false, parentBB, i0, result0, s0;
    while i != |g[parentBB]|
      invariant Kept(g, s) && s.visited == visited && s.result == result && Blocks(s.stack) == inStack
      invariant i <= |g[parentBB]| && s.stack == s0.stack[|s0.stack| - 1 := (parentBB, i)]
      decreases |g[parentBB]| - i
    {
      bb := g[parentBB][i];
      i := i + 1;
      if bb !in visited {
        foundNew := true;
        return;
      }
      ghost var was := s;
      s := PassBy(g, was);
      PassByOk(g, was, |s0.stack| - 1, parentBB, i - 1, s);
      if bb in inStack {
        result := result + [(parentBB, bb)];
      }
    }
  }

  lemma TopExists(g: Graph, s: Dfs, top: nat)
    requires Kept(g, s) && top < |s.stack|
    ensures s.stack[top].0 < |g| && s.stack[top].1 <= |g[s.stack[top].0]|
  {
    assert Look(s);
  }

  /** Goes on at the block on top: down to a new block, or up. */
  method GoOn(g: Graph, visited0: set<Block>, visitStack0: seq<(Block, nat)>, inStack0: set<Block>, result0: seq<Edge>,
              ghost s0: Dfs)
    returns (visited: set<Block>, visitStack: seq<(Block, nat)>, inStack: set<Block>, result: seq<Edge>, ghost s: Dfs)
    requires Kept(g, s0) && s0.stack == visitStack0 != [] && s0.visited == visited0 && s0.result == result0
    requires inStack0 == Blocks(visitStack0)
    ensures Kept(g, s) && s.stack == visitStack && s.visited == visited && s.result == result
    ensures inStack == Blocks(visitStack)
    ensures if visited == visited0 then |visitStack| < |visitStack0| else visited0 < visited
  {
    visited, inStack := visited0, inStack0;
    var top := |visitStack0| - 1;
    var (parentBB, i) := visitStack0[top];
    var foundNew, bb;
    TopExists(g, s0, top);
    foundNew, bb, i, result, s := NextSuccessor(g, parentBB, i, visited, inStack, result0, s0);
    ghost var was := s;
    visitStack := visitStack0[top := (parentBB, i)];
    if foundNew {
      visited, inStack := visited + {bb}, inStack + {bb};
      visitStack := visitStack + [(bb, 0)];
      s := Down(g, was);
      DownOk(g, was, top, parentBB, i - 1, bb, s);
    } else {
      inStack := inStack - {parentBB};
      visitStack := visitStack[..top];
      s := Up(was);
      UpOk(g, was, top, parentBB, i, s);
    }
  }

  lemma VisitedExists(g: Graph, s: Dfs)
    requires Kept(g, s)
    ensures s.visited <= FirstBlocks(|g|)
  {
    assert Look(s);
  }

  /** The edges found by the search.  Without them no cycle is left that can be reached from the
      entry, and each of them closes a cycle that the others do not cut. */
  method FindFunctionBackedges(g: Graph) returns (result: seq<Edge>)
    requires WellFormed(g)
    ensures CutsAllCycles(g, result)
    ensures forall e :: e in result ==> ClosesCycle(g, result, e)
  {
    result := [];
    if g[ENTRY] == [] {
      NoSuccessorsNoCycles(g);
      return;
    }
    var visited, visitStack, inStack := {ENTRY}, [(ENTRY, 0)], {ENTRY};
    ghost var s := Start(g);
    StartOk(g);
    while visitStack != []
      invariant Kept(g, s)
      invariant s.visited == visited && s.stack == visitStack && s.result == result && inStack == Blocks(visitStack)
      decreases FirstBlocks(|g|) - visited, |visitStack|
    {
      visited, visitStack, inStack, result, s := GoOn(g, visited, visitStack, inStack, result, s);
      VisitedExists(g, s);
    }
    assert Look(s);
    EndCutsAllCycles(g, s);
    forall e | e in result
      ensures ClosesCycle(g, result, e)
    {
      EndClosesCycles(g, s, e);
    }
  }
}
