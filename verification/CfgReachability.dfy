/** Whether a block can be reached: a search that asks dominators, skips whole loops and gives up
    after a number of blocks. */
module CfgReachability {
  import opened Options
  import opened CfgPaths

  /** A natural loop: the loop around it, its blocks, and the blocks its edges leave to. */
  datatype Loop = Loop(parent: Option<nat>, blocks: set<Block>, exits: seq<Block>)

  /** The innermost loop of every block, and the loops, outer ones first. */
  datatype LoopInfo = LoopInfo(innermost: seq<Option<nat>>, loops: seq<Loop>)

  datatype DominatorTree = DominatorTree(reachableFromEntry: Block -> bool, dominates: (Block, Block) -> bool)

  const LIMIT: nat := 32

  // ---- what loops and dominators are

  /** A loop lies within the loop around it, which comes first. */
  predicate Within(li: LoopInfo, l: nat) {
    l < |li.loops| && li.loops[l].parent.Some? ==>
      var p := li.loops[l].parent.value;
      p < l && li.loops[l].blocks <= li.loops[p].blocks
  }

  ghost predicate Nested(li: LoopInfo) {
    && (forall l: nat {:trigger Within(li, l)} :: Within(li, l))
    && (forall b :: 0 <= b < |li.innermost| && li.innermost[b].Some? ==>
          li.innermost[b].value < |li.loops| && b in li.loops[li.innermost[b].value].blocks)
  }

  /** The outermost loop around loop l. */
  ghost function Outer(li: LoopInfo, l: nat): (r: nat)
    requires Nested(li) && l < |li.loops|
    ensures r < |li.loops| && li.loops[r].parent == None && li.loops[l].blocks <= li.loops[r].blocks
    decreases l
  {
    assert Within(li, l);
    if li.loops[l].parent == None then l else Outer(li, li.loops[l].parent.value)
  }

  ghost function OutermostLoop(li: LoopInfo, b: Block): (r: Option<nat>)
    requires Nested(li) && b < |li.innermost|
    ensures r.Some? ==> r.value < |li.loops| && li.loops[r.value].parent == None && b in li.loops[r.value].blocks
  {
    if li.innermost[b] == None then None else Some(Outer(li, li.innermost[b].value))
  }

  ghost predicate IsExit(g: Graph, l: Loop, v: Block) {
    v !in l.blocks && exists u :: u in l.blocks && IsEdge(g, u, v)
  }

  /** Every outermost loop is known for its blocks, can be gone around between any two of them, and
      is left through its exit blocks. */
  ghost predicate LoopsOk(g: Graph, li: LoopInfo) {
    && |li.innermost| == |g| && Nested(li)
    && forall l :: 0 <= l < |li.loops| && li.loops[l].parent == None ==>
         && (forall b :: b in li.loops[l].blocks ==> b < |g| && OutermostLoop(li, b) == Some(l))
         && (forall a, b :: a in li.loops[l].blocks && b in li.loops[l].blocks ==> Reaches(g, a, b))
         && (forall v :: v in li.loops[l].exits <==> IsExit(g, li.loops[l], v))
  }

  /** A block that dominates one that can be reached is on every path to it; of blocks that
      cannot be reached nothing is known. */
  ghost predicate DominatorsOk(g: Graph, dt: DominatorTree) {
    && (forall b :: dt.reachableFromEntry(b) <==> Reaches(g, ENTRY, b))
    && forall a, b, path :: dt.dominates(a, b) && Connects(g, path, ENTRY, b) ==> a in path
  }

  lemma DominatorReaches(g: Graph, dt: DominatorTree, a: Block, b: Block)
    requires DominatorsOk(g, dt) && dt.dominates(a, b) && Reaches(g, ENTRY, b)
    ensures Reaches(g, a, b)
  {
    var path :| Connects(g, path, ENTRY, b);
    var i :| 0 <= i < |path| && path[i] == a;
    var rest := path[i..];
    forall k | 0 <= k < |rest| - 1
      ensures IsEdge(g, rest[k], rest[k + 1])
    {
      assert IsEdge(g, path[i + k], path[i + k + 1]);
    }
    assert Connects(g, rest, a, b);
  }

  // ---- the search

  method GetOutermostLoop(li: LoopInfo, b: Block) returns (r: Option<nat>)
    requires Nested(li) && b < |li.innermost|
    ensures r == OutermostLoop(li, b)
  {
    r := li.innermost[b];
    if r.Some? {
      var l: nat := r.value;
      while li.loops[l].parent.Some?
        invariant l < |li.loops| && Outer(li, l) == Outer(li, li.innermost[b].value)
        decreases l
      {
        assert Within(li, l);
        l := li.loops[l].parent.value;
      }
      r := Some(l);
    }
  }

  /** Two blocks of one loop reach each other. */
  method LoopContainsBoth(li: LoopInfo, a: Block, b: Block, ghost g: Graph) returns (r: bool)
    requires LoopsOk(g, li) && a < |g| && b < |g|
    ensures r <==> OutermostLoop(li, a).Some? && OutermostLoop(li, a) == OutermostLoop(li, b)
    ensures r ==> Reaches(g, a, b)
  {
    var l1 := GetOutermostLoop(li, a);
    var l2 := GetOutermostLoop(li, b);
    r := l1 != None && l1 == l2;
  }

  ghost predicate ReachedFrom(g: Graph, from: seq<Block>, b: Block) {
    exists a :: a in from && Reaches(g, a, b)
  }

  /** done holds the blocks that need no further search: every edge from them stays among them or
      leads to the worklist. */
  ghost predicate Frontier(g: Graph, done: set<Block>, worklist: seq<Block>) {
    forall u, v :: u in done && IsEdge(g, u, v) ==> v in done || v in worklist
  }

  ghost predicate SearchOk(g: Graph, from: seq<Block>, stop: Block, visited: set<Block>, done: set<Block>,
                           worklist: seq<Block>) {
    && WellFormed(g) && visited <= done && stop !in done && Frontier(g, done, worklist)
    && (forall a :: a in from ==> a in done || a in worklist)
    && (forall b :: b in visited || b in worklist ==> b < |g| && ReachedFrom(g, from, b))
  }

  /** When nothing is left to do, no start reaches the block. */
  lemma NothingLeft(g: Graph, from: seq<Block>, stop: Block, visited: set<Block>, done: set<Block>)
    requires SearchOk(g, from, stop, visited, done, [])
    ensures !ReachedFrom(g, from, stop)
  {
    assert IsClosed(g, done);
    forall a | a in from
      ensures !Reaches(g, a, stop)
    {
      if Reaches(g, a, stop) {
        ReachedIsInside(g, done, a, stop);
      }
    }
  }

  lemma ReachedOnward(g: Graph, from: seq<Block>, b: Block, c: Block)
    requires ReachedFrom(g, from, b) && Reaches(g, b, c)
    ensures ReachedFrom(g, from, c)
  {
    var a :| a in from && Reaches(g, a, b);
    ReachesTransitive(g, a, b, c);
  }

  /** Taking a block that was visited before off the worklist. */
  lemma SearchAgain(g: Graph, from: seq<Block>, stop: Block, visited: set<Block>, done: set<Block>,
                    worklist: seq<Block>, b: Block)
    requires SearchOk(g, from, stop, visited, done, worklist + [b]) && b in visited
    ensures SearchOk(g, from, stop, visited, done, worklist)
  {
    assert forall v :: v in worklist + [b] <==> v in worklist || v == b;
  }

  /** Visiting b: what is around it is done, and the search goes on where edges leave that. */
  lemma SearchVisit(g: Graph, from: seq<Block>, stop: Block, visited: set<Block>, done: set<Block>,
                    worklist: seq<Block>, b: Block, around: set<Block>, next: seq<Block>)
    requires SearchOk(g, from, stop, visited, done, worklist + [b])
    requires b in around && stop !in around && forall u :: u in around ==> Reaches(g, b, u)
    requires forall u, v :: u in around && IsEdge(g, u, v) ==> v in around || v in next
    requires forall v :: v in next ==> exists u :: u in around && IsEdge(g, u, v)
    ensures SearchOk(g, from, stop, visited + {b}, done + around, worklist + next)
  {
    assert forall v :: v in worklist + [b] <==> v in worklist || v == b;
    assert forall v :: v in worklist + next <==> v in worklist || v in next;
    forall v | v in next
      ensures v < |g| && ReachedFrom(g, from, v)
    {
      var u :| u in around && IsEdge(g, u, v);
      assert v in g[u];
      var k :| 0 <= k < |g[u]| && g[u][k] == v;
      ReachesEdge(g, u, v);
      ReachesTransitive(g, b, u, v);
      ReachedOnward(g, from, b, v);
    }
  }

  /** n blocks can be reached from the starts, without counting stop. */
  ghost predicate ManyReached(g: Graph, from: seq<Block>, stop: Block, n: nat) {
    exists s: set<Block> :: |s| == n && forall b :: b in s ==> b != stop && ReachedFrom(g, from, b)
  }

  // ---- the blocks that are counted

  /** The search goes on from u to v: an edge, if u is in no loop, and otherwise any way out of the
      outermost loop around u. */
  ghost predicate LeadsOn(g: Graph, li: Option<LoopInfo>, u: Block, v: Block) {
    if li.Some? && u < |li.value.innermost| && li.value.innermost[u] != None then
      exists l: Loop :: l in li.value.loops && l.parent == None && u in l.blocks && v in l.exits
    else
      IsEdge(g, u, v)
  }

  /** The search can get to a block from one of the starts. */
  ghost predicate CanGet(g: Graph, li: Option<LoopInfo>, from: seq<Block>, b: Block) {
    exists path: seq<Block> :: GetsTo(g, li, from, path, b)
  }

  ghost predicate GetsTo(g: Graph, li: Option<LoopInfo>, from: seq<Block>, path: seq<Block>, b: Block) {
    && path != [] && path[0] in from && path[|path| - 1] == b
    && forall i :: 0 <= i < |path| - 1 ==> LeadsOn(g, li, path[i], path[i + 1])
  }

  /** The search can get to n blocks. */
  ghost predicate CanGetToMany(g: Graph, li: Option<LoopInfo>, from: seq<Block>, n: nat) {
    exists s: set<Block> :: |s| == n && forall b :: b in s ==> CanGet(g, li, from, b)
  }

  /** What was visited and what is to do are blocks the search can get to, and nothing after a
      visited block is forgotten. */
  ghost predicate GotTo(g: Graph, li: Option<LoopInfo>, from: seq<Block>, visited: set<Block>, worklist: seq<Block>) {
    && (forall b :: b in visited || b in worklist ==> CanGet(g, li, from, b))
    && (forall a :: a in from ==> a in visited || a in worklist)
    && (forall u, v :: u in visited && LeadsOn(g, li, u, v) ==> v in visited || v in worklist)
  }

  lemma CanStart(g: Graph, li: Option<LoopInfo>, from: seq<Block>)
    ensures GotTo(g, li, from, {}, from)
  {
    forall b | b in from
      ensures CanGet(g, li, from, b)
    {
      assert GetsTo(g, li, from, [b], b);
    }
  }

  lemma CanGetOn(g: Graph, li: Option<LoopInfo>, from: seq<Block>, u: Block, v: Block)
    requires CanGet(g, li, from, u) && LeadsOn(g, li, u, v)
    ensures CanGet(g, li, from, v)
  {
    var path: seq<Block> :| GetsTo(g, li, from, path, u);
    var longer := path + [v];
    forall i | 0 <= i < |longer| - 1
      ensures LeadsOn(g, li, longer[i], longer[i + 1])
    {
      assert longer[i] == path[i];
    }
    assert GetsTo(g, li, from, longer, v);
  }

  lemma GotAgain(g: Graph, li: Option<LoopInfo>, from: seq<Block>, visited: set<Block>, worklist: seq<Block>, b: Block)
    requires GotTo(g, li, from, visited, worklist + [b]) && b in visited
    ensures GotTo(g, li, from, visited, worklist)
  {
    assert forall v :: v in worklist + [b] <==> v in worklist || v == b;
  }

  lemma GetFurther(g: Graph, li: Option<LoopInfo>, from: seq<Block>, visited: set<Block>, worklist: seq<Block>,
                   b: Block, next: seq<Block>)
    requires GotTo(g, li, from, visited, worklist + [b])
    requires forall v :: v in next <==> LeadsOn(g, li, b, v)
    ensures GotTo(g, li, from, visited + {b}, worklist + next)
  {
    assert forall v :: v in worklist + [b] <==> v in worklist || v == b;
    assert forall v :: v in worklist + next <==> v in worklist || v in next;
    forall v | v in next
      ensures CanGet(g, li, from, v)
    {
      CanGetOn(g, li, from, b, v);
    }
  }

  lemma {:induction false} AllVisited(g: Graph, li: Option<LoopInfo>, from: seq<Block>, visited: set<Block>,
                                      path: seq<Block>, b: Block)
    requires GotTo(g, li, from, visited, []) && GetsTo(g, li, from, path, b)
    ensures b in visited
  {
    if |path| > 1 {
      var front := path[..|path| - 1];
      assert GetsTo(g, li, from, front, front[|front| - 1]);
      AllVisited(g, li, from, visited, front, front[|front| - 1]);
      assert LeadsOn(g, li, path[|path| - 2], path[|path| - 1]);
    }
  }

  /** When nothing is left to do, every block the search can get to was visited. */
  lemma GotToFew(g: Graph, li: Option<LoopInfo>, from: seq<Block>, visited: set<Block>, n: nat)
    requires GotTo(g, li, from, visited, []) && |visited| < n
    ensures !CanGetToMany(g, li, from, n)
  {
    forall s: set<Block> | forall b :: b in s ==> CanGet(g, li, from, b)
      ensures |s| <= |visited|
    {
      forall b | b in s
        ensures b in visited
      {
        var path: seq<Block> :| GetsTo(g, li, from, path, b);
        AllVisited(g, li, from, visited, path, b);
      }
      SubsetSize(s, visited);
    }
  }

  lemma SubsetSize(s: set<Block>, t: set<Block>)
    requires s <= t
    ensures |s| <= |t|
  {
    assert t == s + (t - s);
  }

  lemma GotToMany(g: Graph, li: Option<LoopInfo>, from: seq<Block>, visited: set<Block>, worklist: seq<Block>, b: Block)
    requires GotTo(g, li, from, visited, worklist + [b]) && b !in visited
    ensures CanGetToMany(g, li, from, |visited| + 1)
  {
    assert b in worklist + [b];
    var s := visited + {b};
    assert |s| == |visited| + 1 && forall c :: c in s ==> CanGet(g, li, from, c);
  }

  /** Out of the outermost loop around a block, or on to its successors. */
  lemma LeadsOnIs(g: Graph, li: Option<LoopInfo>, b: Block, v: Block)
    requires WellFormed(g) && b < |g| && (li.Some? ==> LoopsOk(g, li.value))
    ensures LeadsOn(g, li, b, v) <==>
            if li.Some? && OutermostLoop(li.value, b).Some?
            then v in li.value.loops[OutermostLoop(li.value, b).value].exits
            else IsEdge(g, b, v)
  {
    if li.Some? && OutermostLoop(li.value, b).Some? {
      var o := OutermostLoop(li.value, b).value;
      var outer := li.value.loops[o];
      assert outer in li.value.loops;
      forall l: Loop | l in li.value.loops && l.parent == None && b in l.blocks
        ensures l == outer
      {
        var k :| 0 <= k < |li.value.loops| && li.value.loops[k] == l;
        assert OutermostLoop(li.value, b) == Some(k);
      }
    }
  }

  // ---- the algorithm

  /** Where the search goes on from a block: behind the loop it is in, or to its successors. */
  method NextBlocks(g: Graph, li: Option<LoopInfo>, b: Block, stop: Block)
    returns (next: seq<Block>, ghost around: set<Block>)
    requires WellFormed(g) && b < |g| && stop < |g| && b != stop && (li.Some? ==> LoopsOk(g, li.value))
    requires li.Some? && OutermostLoop(li.value, b).Some? ==>
               OutermostLoop(li.value, b) != OutermostLoop(li.value, stop)
    ensures b in around && stop !in around && forall u :: u in around ==> Reaches(g, b, u)
    ensures forall u, v :: u in around && IsEdge(g, u, v) ==> v in around || v in next
    ensures forall v :: v in next ==> exists u :: u in around && IsEdge(g, u, v)
    ensures forall v :: v in next <==> LeadsOn(g, li, b, v)
  {
    ReachesSelf(g, b);
    next, around := g[b], {b};
    if li.Some? {
      var outer := GetOutermostLoop(li.value, b);
      if outer.Some? {
        var l := li.value.loops[outer.value];
        next, around := l.exits, l.blocks;
      }
    }
    forall v
      ensures v in next <==> LeadsOn(g, li, b, v)
    {
      LeadsOnIs(g, li, b, v);
    }
  }

  predicate Look(u: nat) {
    true
  }

  /** The search is under way; what that means is only looked at where it is needed. */
  ghost predicate Going(g: Graph, li: Option<LoopInfo>, from: seq<Block>, stop: Block, visited: set<Block>,
                        done: set<Block>, worklist: seq<Block>) {
    forall u: nat {:trigger Look(u)} :: Look(u) ==>
      SearchOk(g, from, stop, visited, done, worklist) && GotTo(g, li, from, visited, worklist)
  }

  lemma StartGoing(g: Graph, li: Option<LoopInfo>, from: seq<Block>, stop: Block)
    requires WellFormed(g) && forall b :: b in from ==> b < |g|
    ensures Going(g, li, from, stop, {}, {}, from)
  {
    StartSearch(g, from, stop);
    CanStart(g, li, from);
  }

  lemma GoingAgain(g: Graph, li: Option<LoopInfo>, from: seq<Block>, stop: Block, visited: set<Block>,
                   done: set<Block>, worklist: seq<Block>, b: Block)
    requires Going(g, li, from, stop, visited, done, worklist + [b]) && b in visited
    ensures Going(g, li, from, stop, visited, done, worklist)
  {
    assert Look(0);
    SearchAgain(g, from, stop, visited, done, worklist, b);
    GotAgain(g, li, from, visited, worklist, b);
  }

  lemma GoneEverywhere(g: Graph, li: Option<LoopInfo>, from: seq<Block>, stop: Block, visited: set<Block>,
                       done: set<Block>)
    requires Going(g, li, from, stop, visited, done, []) && |visited| < LIMIT
    ensures !ReachedFrom(g, from, stop) && !CanGetToMany(g, li, from, LIMIT)
  {
    assert Look(0);
    NothingLeft(g, from, stop, visited, done);
    GotToFew(g, li, from, visited, LIMIT);
  }

  /** True exactly if a start reaches the block, or there are 32 blocks to look at when the inside
      of loops is skipped; those can then all be reached. */
  method IsPotentiallyReachableFromMany(g: Graph, from: seq<Block>, stop: Block, dt0: Option<DominatorTree>,
                                        li: Option<LoopInfo>)
    returns (r: bool)
    requires WellFormed(g) && stop < |g| && from != [] && forall b :: b in from ==> b < |g|
    requires dt0.Some? ==> DominatorsOk(g, dt0.value)
    requires li.Some? ==> LoopsOk(g, li.value)
    ensures r <==> ReachedFrom(g, from, stop) || CanGetToMany(g, li, from, 32)
    ensures r ==> ReachedFrom(g, from, stop) || ManyReached(g, from, stop, 32)
  {
    var dt := dt0;
    if dt.Some? && !dt.value.reachableFromEntry(stop) {
      dt := None;
    }
    var limit := LIMIT;
    var worklist, visited := from, {};
    ghost var done: set<Block> := {};
    StartGoing(g, li, from, stop);
    while true
      invariant Going(g, li, from, stop, visited, done, worklist) && worklist != []
      invariant dt.Some? ==> DominatorsOk(g, dt.value) && Reaches(g, ENTRY, stop)
      invariant |visited| + limit == LIMIT && limit > 0
      decreases limit, |worklist|
    {
      var b := worklist[|worklist| - 1];
      SplitLast(worklist);
      worklist := worklist[..|worklist| - 1];
      if b in visited {
        GoingAgain(g, li, from, stop, visited, done, worklist, b);
      } else {
        var found;
        found, worklist, limit, done := Visit(g, from, stop, dt, li, limit, visited, done, worklist, b);
        if found {
          return true;
        }
        OneMore(visited, b);
        visited := visited + {b};
      }
      if worklist == [] {
        GoneEverywhere(g, li, from, stop, visited, done);
        return false;
      }
    }
  }

  /** Visits a block: the search is over if it finds the one looked for or has no budget left;
      otherwise what comes next goes on the worklist. */
  method Visit(g: Graph, from: seq<Block>, stop: Block, dt: Option<DominatorTree>, li: Option<LoopInfo>, limit0: nat,
               ghost visited: set<Block>, ghost done0: set<Block>, worklist0: seq<Block>, b: Block)
    returns (found: bool, worklist: seq<Block>, limit: nat, ghost done: set<Block>)
    requires Going(g, li, from, stop, visited, done0, worklist0 + [b]) && b !in visited && stop < |g|
    requires |visited| + limit0 == LIMIT && limit0 > 0
    requires dt.Some? ==> DominatorsOk(g, dt.value) && Reaches(g, ENTRY, stop)
    requires li.Some? ==> LoopsOk(g, li.value)
    ensures found ==> || ReachedFrom(g, from, stop)
                      || (ManyReached(g, from, stop, LIMIT) && CanGetToMany(g, li, from, LIMIT))
    ensures !found ==> Going(g, li, from, stop, visited + {b}, done, worklist) && limit > 0
    ensures limit <= limit0 && (!found ==> limit == limit0 - 1)
  {
    assert Look(0);
    assert b in worklist0 + [b];
    worklist, limit, done := worklist0, limit0, done0;
    found := Finds(g, b, stop, dt, li);
    if found {
      ReachedOnward(g, from, b, stop);
    } else {
      limit := limit - 1;
      if limit == 0 {
        SpentBudget(g, from, stop, visited, done, worklist, b);
        GotToMany(g, li, from, visited, worklist, b);
        found := true;
      } else {
        worklist, done := GoOn(g, from, stop, li, visited, done, worklist, b);
      }
    }
  }

  lemma SplitLast(s: seq<Block>)
    requires s != []
    ensures s == s[..|s| - 1] + [s[|s| - 1]]
  {
  }

  lemma OneMore(s: set<Block>, b: Block)
    requires b !in s
    ensures |s + {b}| == |s| + 1
  {
  }

  lemma StartSearch(g: Graph, from: seq<Block>, stop: Block)
    requires WellFormed(g) && forall b :: b in from ==> b < |g|
    ensures SearchOk(g, from, stop, {}, {}, from)
  {
    forall b | b in from
      ensures ReachedFrom(g, from, b)
    {
      ReachesSelf(g, b);
    }
  }

  lemma SpentBudget(g: Graph, from: seq<Block>, stop: Block, visited: set<Block>, done: set<Block>,
                    worklist: seq<Block>, b: Block)
    requires SearchOk(g, from, stop, visited, done, worklist + [b]) && b !in visited && b != stop
    ensures ManyReached(g, from, stop, |visited| + 1)
  {
    assert b in worklist + [b];
    var s := visited + {b};
    assert |s| == |visited| + 1 && forall c :: c in s ==> c != stop && ReachedFrom(g, from, c);
  }

  /** Puts what comes after a block on the worklist. */
  method GoOn(g: Graph, from: seq<Block>, stop: Block, li: Option<LoopInfo>, ghost visited: set<Block>,
              ghost done0: set<Block>,
              worklist0: seq<Block>, b: Block) returns (worklist: seq<Block>, ghost done: set<Block>)
    requires SearchOk(g, from, stop, visited, done0, worklist0 + [b])
    requires GotTo(g, li, from, visited, worklist0 + [b])
    requires b < |g| && stop < |g| && b != stop && (li.Some? ==> LoopsOk(g, li.value))
    requires li.Some? && OutermostLoop(li.value, b).Some? ==>
               OutermostLoop(li.value, b) != OutermostLoop(li.value, stop)
    ensures Going(g, li, from, stop, visited + {b}, done, worklist)
  {
    var next;
    ghost var around;
    next, around := NextBlocks(g, li, b, stop);
    SearchVisit(g, from, stop, visited, done0, worklist0, b, around, next);
    GetFurther(g, li, from, visited, worklist0, b, next);
    worklist, done := worklist0 + next, done0 + around;
  }

  /** The three ways in which the search ends at a block that reaches the one looked for. */
  method Finds(g: Graph, b: Block, stop: Block, dt: Option<DominatorTree>, li: Option<LoopInfo>) returns (r: bool)
    requires b < |g| && stop < |g|
    requires dt.Some? ==> DominatorsOk(g, dt.value) && Reaches(g, ENTRY, stop)
    requires li.Some? ==> LoopsOk(g, li.value)
    ensures r ==> Reaches(g, b, stop)
    ensures !r ==> b != stop
    ensures !r && li.Some? && OutermostLoop(li.value, b).Some? ==>
              OutermostLoop(li.value, b) != OutermostLoop(li.value, stop)
  {
    if b == stop {
      ReachesSelf(g, b);
      return true;
    }
    if dt.Some? && dt.value.dominates(b, stop) {
      DominatorReaches(g, dt.value, b, stop);
      return true;
    }
    if li.Some? {
      r := LoopContainsBoth(li.value, b, stop, g);
    } else {
      r := false;
    }
  }
}
