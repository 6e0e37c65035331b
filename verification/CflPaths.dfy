/** What the seven match states accept, told without them: paths of assignments, reverse
    assignments and memory aliases in which no reverse assignment follows an assignment and no
    two memory aliases follow each other. */
module CflPaths {
  import opened Options
  import opened CflGraph
  import opened CflRules

  datatype Label = Assign | RevAssign | Memory

  /** The nodes of a path, one more than its labels. */
  datatype Path = Path(nodes: seq<Node>, labels: seq<Label>)

  ghost predicate HasEdge(g: Levels, M: set<MemAlias>, x: Node, l: Label, y: Node) {
    match l
    case Assign => Assigns(g, x, y)
    case RevAssign => Assigns(g, y, x)
    case Memory => MemAlias(x, y) in M
  }

  /** The order in which labels may follow each other. */
  predicate Ordered(labels: seq<Label>) {
    && (forall i, j :: 0 <= i < j < |labels| && labels[i] == Assign ==> labels[j] != RevAssign)
    && (forall i :: 0 < i < |labels| && labels[i - 1] == Memory ==> labels[i] != Memory)
  }

  ghost predicate IsAliasPath(g: Levels, M: set<MemAlias>, p: Path) {
    && p.labels != [] && |p.nodes| == |p.labels| + 1 && Ordered(p.labels)
    && forall i :: 0 <= i < |p.labels| ==> HasEdge(g, M, p.nodes[i], p.labels[i], p.nodes[i + 1])
  }

  ghost predicate Joins(g: Levels, M: set<MemAlias>, p: Path, x: Node, y: Node) {
    IsAliasPath(g, M, p) && p.nodes[0] == x && p.nodes[|p.nodes| - 1] == y
  }

  ghost predicate Connected(g: Levels, M: set<MemAlias>, x: Node, y: Node) {
    exists p :: Joins(g, M, p, x, y)
  }

  /** What a state tells about the path: whether it ends with a memory alias, and which kinds of
      assignments occur in it. */
  predicate Tells(s: MatchState, labels: seq<Label>) {
    var memoryLast, back, forth :=
      labels != [] && labels[|labels| - 1] == Memory, RevAssign in labels, Assign in labels;
    match s
    case FlowFromReadOnly => !memoryLast && back && !forth
    case FlowFromMemAliasNoReadWrite => memoryLast && !back && !forth
    case FlowFromMemAliasReadOnly => memoryLast && back && !forth
    case FlowToWriteOnly => !memoryLast && !back && forth
    case FlowToReadWrite => !memoryLast && back && forth
    case FlowToMemAliasWriteOnly => memoryLast && !back && forth
    case FlowToMemAliasReadWrite => memoryLast && back && forth
  }

  /** The fact is that of some path. */
  ghost predicate OfPath(g: Levels, M: set<MemAlias>, f: Fact) {
    exists p :: Joins(g, M, p, f.from, f.to) && Tells(f.state, p.labels)
  }

  // ---- every fact is that of a path

  lemma StartsOfPath(g: Levels, M: set<MemAlias>, f: Fact)
    requires Starts(g, M, f)
    ensures OfPath(g, M, f)
  {
    var l := if f.state == FlowFromReadOnly then RevAssign else if f.state == FlowToWriteOnly then Assign else Memory;
    var p := Path([f.from, f.to], [l]);
    assert p.labels[0] == l;
    assert Joins(g, M, p, f.from, f.to) && Tells(f.state, p.labels);
  }

  lemma MoreLabels(labels: seq<Label>, l: Label)
    ensures forall k :: k in labels + [l] <==> k in labels || k == l
    ensures Ordered(labels + [l]) <==> Ordered(labels) && (l == RevAssign ==> Assign !in labels)
                                       && (l == Memory && labels != [] ==> labels[|labels| - 1] != Memory)
  {
    var all := labels + [l];
    assert all[|labels|] == l && forall i :: 0 <= i < |labels| ==> all[i] == labels[i];
    assert labels != [] ==> all[|labels| - 1] == labels[|labels| - 1];
    forall k
      ensures k in all <==> k in labels || k == l
    {
      assert k == l ==> all[|labels|] == k;
    }
  }

  function Longer(p: Path, l: Label, y: Node): Path {
    Path(p.nodes + [y], p.labels + [l])
  }

  lemma LongerJoins(g: Levels, M: set<MemAlias>, p: Path, x: Node, z: Node, l: Label, y: Node)
    requires Joins(g, M, p, x, z) && HasEdge(g, M, z, l, y) && Ordered(p.labels + [l])
    ensures Joins(g, M, Longer(p, l, y), x, y)
  {
    var q := Longer(p, l, y);
    forall i | 0 <= i < |q.labels|
      ensures HasEdge(g, M, q.nodes[i], q.labels[i], q.nodes[i + 1])
    {
      if i < |p.labels| {
        assert HasEdge(g, M, p.nodes[i], p.labels[i], p.nodes[i + 1]);
      }
    }
  }

  /** The label by which one fact follows another. */
  lemma StepOfPath(g: Levels, M: set<MemAlias>, p: Path, f: Fact, f': Fact, l: Label)
    requires Joins(g, M, p, f.from, f.to) && Tells(f.state, p.labels) && f'.from == f.from
    requires HasEdge(g, M, f.to, l, f'.to)
    requires match l
             case Assign => f'.state == AssignStep(f.state)
             case RevAssign => Some(f'.state) == RevAssignStep(f.state)
             case Memory => Some(f'.state) == MemStep(f.state)
    ensures OfPath(g, M, f')
  {
    MoreLabels(p.labels, l);
    LongerJoins(g, M, p, f.from, f.to, l, f'.to);
    assert (p.labels + [l])[|p.labels|] == l;
    assert Tells(f'.state, Longer(p, l, f'.to).labels);
  }

  lemma ExtendsOfPath(g: Levels, M: set<MemAlias>, f: Fact, f': Fact)
    requires OfPath(g, M, f) && Extends(g, M, f, f')
    ensures OfPath(g, M, f')
  {
    var p :| Joins(g, M, p, f.from, f.to) && Tells(f.state, p.labels);
    if Assigns(g, f.to, f'.to) && f'.state == AssignStep(f.state) {
      StepOfPath(g, M, p, f, f', Assign);
    } else if Assigns(g, f'.to, f.to) && Some(f'.state) == RevAssignStep(f.state) {
      StepOfPath(g, M, p, f, f', RevAssign);
    } else {
      StepOfPath(g, M, p, f, f', Memory);
    }
  }

  // ---- every path makes a fact

  function StateOf(labels: seq<Label>): MatchState
    requires labels != []
  {
    if labels[|labels| - 1] == Memory then
      if Assign in labels then if RevAssign in labels then FlowToMemAliasReadWrite else FlowToMemAliasWriteOnly
      else if RevAssign in labels then FlowFromMemAliasReadOnly else FlowFromMemAliasNoReadWrite
    else if Assign in labels then if RevAssign in labels then FlowToReadWrite else FlowToWriteOnly
    else FlowFromReadOnly
  }

  lemma StateTold(labels: seq<Label>, s: MatchState)
    requires labels != []
    ensures Tells(s, labels) <==> s == StateOf(labels)
  {
    assert labels[|labels| - 1] in labels;
  }

  /** A path without its last edge. */
  lemma Shorter(g: Levels, M: set<MemAlias>, p: Path, q: Path, x: Node, y: Node)
    requires Joins(g, M, p, x, y) && |p.labels| > 1
    requires q == Path(p.nodes[..|p.labels|], p.labels[..|p.labels| - 1])
    ensures Joins(g, M, q, x, p.nodes[|p.labels| - 1]) && p.labels == q.labels + [p.labels[|p.labels| - 1]]
    ensures HasEdge(g, M, p.nodes[|p.labels| - 1], p.labels[|p.labels| - 1], y)
  {
    var n := |p.labels| - 1;
    assert p.labels == q.labels + [p.labels[n]];
    MoreLabels(q.labels, p.labels[n]);
    assert HasEdge(g, M, p.nodes[n], p.labels[n], p.nodes[n + 1]);
    forall i | 0 <= i < |q.labels|
      ensures HasEdge(g, M, q.nodes[i], q.labels[i], q.nodes[i + 1])
    {
      assert HasEdge(g, M, p.nodes[i], p.labels[i], p.nodes[i + 1]);
    }
  }

  lemma FactFollows(g: Levels, R: set<Fact>, M: set<MemAlias>, x: Node, z: Node, labels: seq<Label>, l: Label, y: Node)
    requires Closed(g, R, M, false) && labels != [] && Ordered(labels + [l])
    requires Fact(x, z, StateOf(labels)) in R && HasEdge(g, M, z, l, y)
    ensures Fact(x, y, StateOf(labels + [l])) in R
  {
    StateFollows(labels, l);
    assert Extends(g, M, Fact(x, z, StateOf(labels)), Fact(x, y, StateOf(labels + [l])));
  }

  lemma {:induction false} PathMakesFact(g: Levels, R: set<Fact>, M: set<MemAlias>, p: Path, x: Node, y: Node)
    requires Closed(g, R, M, false) && Joins(g, M, p, x, y)
    ensures Fact(x, y, StateOf(p.labels)) in R
    decreases |p.labels|
  {
    var n := |p.labels| - 1;
    if n == 0 {
      assert HasEdge(g, M, p.nodes[0], p.labels[0], p.nodes[0 + 1]);
      assert Starts(g, M, Fact(x, y, StateOf(p.labels)));
    } else {
      var q := Path(p.nodes[..n + 1], p.labels[..n]);
      Shorter(g, M, p, q, x, y);
      PathMakesFact(g, R, M, q, x, p.nodes[n]);
      FactFollows(g, R, M, x, p.nodes[n], q.labels, p.labels[n], y);
    }
  }

  lemma StateFollows(labels: seq<Label>, l: Label)
    requires labels != [] && Ordered(labels + [l])
    ensures match l
            case Assign => StateOf(labels + [l]) == AssignStep(StateOf(labels))
            case RevAssign => Some(StateOf(labels + [l])) == RevAssignStep(StateOf(labels))
            case Memory => Some(StateOf(labels + [l])) == MemStep(StateOf(labels))
  {
    MoreLabels(labels, l);
    StateTold(labels, StateOf(labels));
    assert (labels + [l])[|labels|] == l;
  }

  // ---- the least solution of the rules is the least solution over paths

  /** Without the test on equal nodes, a pair is related at a state exactly if a path of which the
      state is right leads from the one to the other; and memory aliases lie exactly below pairs
      that are connected by paths. */
  lemma FactsArePaths(g: Levels, R: set<Fact>, M: set<MemAlias>)
    requires WellFormed(g) && IsLeast(g, R, M, false)
    ensures forall f :: f in R <==> OfPath(g, M, f)
    ensures forall x, y :: Aliases(R, x, y) <==> Connected(g, M, x, y)
    ensures forall a, b :: MemAlias(a, b) in M <==> IsBelow(g, M, a, b)
  {
    var R' := set f | f in R && OfPath(g, M, f);
    forall f | Starts(g, M, f)
      ensures f in R'
    {
      StartsOfPath(g, M, f);
    }
    forall f, f' | f in R' && Extends(g, M, f, f')
      ensures f' in R'
    {
      ExtendsOfPath(g, M, f, f');
    }
    assert Closed(g, R', M, false);
    forall f | OfPath(g, M, f)
      ensures f in R
    {
      PathIsFact(g, R, M, f);
    }
    forall x, y | Connected(g, M, x, y)
      ensures Aliases(R, x, y)
    {
      var p :| Joins(g, M, p, x, y);
      PathMakesFact(g, R, M, p, x, y);
    }
    MemsAreBelow(g, R, M);
  }

  lemma PathIsFact(g: Levels, R: set<Fact>, M: set<MemAlias>, f: Fact)
    requires Closed(g, R, M, false) && OfPath(g, M, f)
    ensures f in R
  {
    var p :| Joins(g, M, p, f.from, f.to) && Tells(f.state, p.labels);
    PathMakesFact(g, R, M, p, f.from, f.to);
    StateTold(p.labels, f.state);
  }

  /** a and b are what two connected nodes point to. */
  ghost predicate IsBelow(g: Levels, M: set<MemAlias>, a: Node, b: Node) {
    exists x, y :: Connected(g, M, x, y) && a == Below(x) && b == Below(y) && IsNode(g, a) && IsNode(g, b)
  }

  lemma MemsAreBelow(g: Levels, R: set<Fact>, M: set<MemAlias>)
    requires IsLeast(g, R, M, false) && forall x, y :: Aliases(R, x, y) <==> Connected(g, M, x, y)
    ensures forall a, b :: MemAlias(a, b) in M <==> IsBelow(g, M, a, b)
  {
    var M' := set m | m in M && IsBelow(g, M, m.lhs, m.rhs);
    forall f | f in R && IsNode(g, Below(f.from)) && IsNode(g, Below(f.to))
      ensures MemAlias(Below(f.from), Below(f.to)) in M'
    {
      assert Aliases(R, f.from, f.to);
    }
    MoreMems(g, M', M);
    assert Closed(g, R, M', false);
    forall a, b | IsBelow(g, M, a, b)
      ensures MemAlias(a, b) in M
    {
      var x, y :| Connected(g, M, x, y) && a == Below(x) && b == Below(y) && IsNode(g, a) && IsNode(g, b);
      var s :| Fact(x, y, s) in R;
      assert MemAlias(Below(Fact(x, y, s).from), Below(Fact(x, y, s).to)) in M;
    }
  }

  /** And these are the least such memory aliases. */
  lemma PathMemsAreLeast(g: Levels, R: set<Fact>, M: set<MemAlias>, M': set<MemAlias>)
    requires WellFormed(g) && IsLeast(g, R, M, false)
    requires M' <= AllMems(g) && forall a, b :: IsBelow(g, M', a, b) ==> MemAlias(a, b) in M'
    ensures M <= M'
  {
    var R' := set f | f in AllFacts(g) && OfPath(g, M', f);
    forall f | Starts(g, M', f)
      ensures f in R'
    {
      StartsOfPath(g, M', f);
    }
    forall f, f' | f in R' && Extends(g, M', f, f')
      ensures f' in R'
    {
      ExtendsOfPath(g, M', f, f');
    }
    forall f | f in R' && IsNode(g, Below(f.from)) && IsNode(g, Below(f.to))
      ensures MemAlias(Below(f.from), Below(f.to)) in M'
    {
      var p :| Joins(g, M', p, f.from, f.to) && Tells(f.state, p.labels);
      assert Connected(g, M', f.from, f.to);
      assert IsBelow(g, M', Below(f.from), Below(f.to));
    }
    assert Closed(g, R', M', false);
  }

  /** What the analysis computes, with pairs of equal nodes dropped on the way: two different nodes
      are related exactly if a path over the memory aliases leads from the one to the other. */
  lemma DistinctAliasesArePaths(g: Levels, R: set<Fact>, M: set<MemAlias>, R2: set<Fact>, M2: set<MemAlias>)
    requires WellFormed(g) && IsLeast(g, R, M, true) && IsLeast(g, R2, M2, false)
    ensures forall x, y :: x != y ==> (Aliases(R, x, y) <==> Connected(g, M2, x, y))
  {
    FilterLosesNoAlias(g, R, M, R2, M2);
    FactsArePaths(g, R2, M2);
  }
}
