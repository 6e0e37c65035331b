/** Control-flow graphs and their paths. */
module CfgPaths {

  type Block = nat
  type Edge = (Block, Block)

  /** The successors of every block; block 0 is the entry. */
  type Graph = seq<seq<Block>>

  const ENTRY: Block := 0

  predicate WellFormed(g: Graph) {
    g != [] && forall b, k :: 0 <= b < |g| && 0 <= k < |g[b]| ==> g[b][k] < |g|
  }

  predicate IsEdge(g: Graph, a: Block, b: Block) {
    a < |g| && b in g[a]
  }

  /** The blocks of a path, first and last included. */
  predicate IsPath(g: Graph, path: seq<Block>) {
    && path != []
    && (forall i :: 0 <= i < |path| ==> path[i] < |g|)
    && forall i :: 0 <= i < |path| - 1 ==> IsEdge(g, path[i], path[i + 1])
  }

  predicate Connects(g: Graph, path: seq<Block>, a: Block, b: Block) {
    IsPath(g, path) && path[0] == a && path[|path| - 1] == b
  }

  ghost predicate Reaches(g: Graph, a: Block, b: Block) {
    exists path :: Connects(g, path, a, b)
  }

  lemma ReachesSelf(g: Graph, a: Block)
    requires a < |g|
    ensures Reaches(g, a, a)
  {
    assert Connects(g, [a], a, a);
  }

  lemma ReachesEdge(g: Graph, a: Block, b: Block)
    requires IsEdge(g, a, b) && b < |g|
    ensures Reaches(g, a, b)
  {
    assert Connects(g, [a, b], a, b);
  }

  lemma ReachesTransitive(g: Graph, a: Block, b: Block, c: Block)
    requires Reaches(g, a, b) && Reaches(g, b, c)
    ensures Reaches(g, a, c)
  {
    var p :| Connects(g, p, a, b);
    var q :| Connects(g, q, b, c);
    var r := p + q[1..];
    assert forall i :: |p| - 1 <= i < |r| ==> r[i] == q[i - |p| + 1];
    assert Connects(g, r, a, c);
  }

  /** A set that every edge from it stays in. */
  ghost predicate IsClosed(g: Graph, s: set<Block>) {
    forall a, b :: a in s && IsEdge(g, a, b) ==> b in s
  }

  lemma {:induction false} PathStaysInside(g: Graph, s: set<Block>, path: seq<Block>)
    requires IsClosed(g, s) && IsPath(g, path) && path[0] in s
    ensures path[|path| - 1] in s
  {
    if |path| > 1 {
      assert IsEdge(g, path[0], path[0 + 1]);
      forall i | 0 <= i < |path[1..]| - 1
        ensures IsEdge(g, path[1..][i], path[1..][i + 1])
      {
        assert IsEdge(g, path[i + 1], path[i + 1 + 1]);
      }
      PathStaysInside(g, s, path[1..]);
    }
  }

  lemma ReachedIsInside(g: Graph, s: set<Block>, a: Block, b: Block)
    requires IsClosed(g, s) && a in s && Reaches(g, a, b)
    ensures b in s
  {
    var path :| Connects(g, path, a, b);
    PathStaysInside(g, s, path);
  }
}
