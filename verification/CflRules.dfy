/** The inference rules of the CFL-Andersen analysis, stated as closure conditions on a
    pair of relations, and what follows for their least solution:
    discarding the pairs of equal nodes loses no alias, and aliasing is symmetric. */
module CflRules {
  import opened Options
  import opened CflGraph

  datatype MatchState =
    | FlowFromReadOnly
    | FlowFromMemAliasNoReadWrite
    | FlowFromMemAliasReadOnly
    | FlowToWriteOnly
    | FlowToReadWrite
    | FlowToMemAliasWriteOnly
    | FlowToMemAliasReadWrite

  /** `to` is reachable from `from` at `state`. */
  datatype Fact = Fact(from: Node, to: Node, state: MatchState)

  /** The memory at the two nodes may be the same. */
  datatype MemAlias = MemAlias(lhs: Node, rhs: Node)

  // ---- the state machine

  function AssignStep(s: MatchState): MatchState {
    match s
    case FlowFromReadOnly => FlowToReadWrite
    case FlowFromMemAliasNoReadWrite => FlowToWriteOnly
    case FlowFromMemAliasReadOnly => FlowToReadWrite
    case FlowToWriteOnly => FlowToWriteOnly
    case FlowToReadWrite => FlowToReadWrite
    case FlowToMemAliasWriteOnly => FlowToWriteOnly
    case FlowToMemAliasReadWrite => FlowToReadWrite
  }

  function RevAssignStep(s: MatchState): Option<MatchState> {
    match s
    case FlowFromReadOnly => Some(FlowFromReadOnly)
    case FlowFromMemAliasNoReadWrite => Some(FlowFromReadOnly)
    case FlowFromMemAliasReadOnly => Some(FlowFromReadOnly)
    case _ => None
  }

  function MemStep(s: MatchState): Option<MatchState> {
    match s
    case FlowFromReadOnly => Some(FlowFromMemAliasReadOnly)
    case FlowToWriteOnly => Some(FlowToMemAliasWriteOnly)
    case FlowToReadWrite => Some(FlowToMemAliasReadWrite)
    case _ => None
  }

  // ---- the rules

  /** A path of one edge: assignment, reverse assignment or memory alias. */
  predicate Starts(g: Levels, M: set<MemAlias>, f: Fact) {
    || (f.state == FlowFromReadOnly && Assigns(g, f.to, f.from))
    || (f.state == FlowToWriteOnly && Assigns(g, f.from, f.to))
    || (f.state == FlowFromMemAliasNoReadWrite && MemAlias(f.from, f.to) in M)
  }

  /** f' is f with one more edge that the state machine accepts. */
  predicate Extends(g: Levels, M: set<MemAlias>, f: Fact, f': Fact) {
    && f'.from == f.from
    && (|| (Assigns(g, f.to, f'.to) && f'.state == AssignStep(f.state))
        || (Assigns(g, f'.to, f.to) && Some(f'.state) == RevAssignStep(f.state))
        || (MemAlias(f.to, f'.to) in M && Some(f'.state) == MemStep(f.state)))
  }

  /** Whether a pair is kept: with the filter on, pairs of equal nodes are dropped. */
  predicate Kept(filter: bool, f: Fact) {
    filter ==> f.from != f.to
  }

  ghost predicate ClosedStarts(g: Levels, R: set<Fact>, M: set<MemAlias>, filter: bool) {
    forall f :: Starts(g, M, f) && Kept(filter, f) ==> f in R
  }

  ghost predicate ClosedExtends(g: Levels, R: set<Fact>, M: set<MemAlias>, filter: bool) {
    forall f, f' :: f in R && Extends(g, M, f, f') && Kept(filter, f') ==> f' in R
  }

  /** If x and y are value aliases, then *x and *y are memory aliases. */
  ghost predicate ClosedBelow(g: Levels, R: set<Fact>, M: set<MemAlias>) {
    forall f :: f in R && IsNode(g, Below(f.from)) && IsNode(g, Below(f.to)) ==>
      MemAlias(Below(f.from), Below(f.to)) in M
  }

  ghost predicate Closed(g: Levels, R: set<Fact>, M: set<MemAlias>, filter: bool) {
    ClosedStarts(g, R, M, filter) && ClosedExtends(g, R, M, filter) && ClosedBelow(g, R, M)
  }

  /** Everything in (R, M) is forced by the rules. */
  ghost predicate Forced(g: Levels, R: set<Fact>, M: set<MemAlias>, filter: bool) {
    forall R', M' :: Closed(g, R', M', filter) ==> R <= R' && M <= M'
  }

  /** (R, M) is the least pair of relations closed under the rules. */
  ghost predicate IsLeast(g: Levels, R: set<Fact>, M: set<MemAlias>, filter: bool) {
    Closed(g, R, M, filter) && Forced(g, R, M, filter)
  }

  /** y is reachable from x at some state. */
  ghost predicate Aliases(R: set<Fact>, x: Node, y: Node) {
    exists s :: Fact(x, y, s) in R
  }

  // ---- a least solution exists

  ghost function States(): set<MatchState> {
    {FlowFromReadOnly, FlowFromMemAliasNoReadWrite, FlowFromMemAliasReadOnly, FlowToWriteOnly,
     FlowToReadWrite, FlowToMemAliasWriteOnly, FlowToMemAliasReadWrite}
  }

  lemma StateListed(s: MatchState)
    ensures s in States()
  {
  }

  /** Every fact about the nodes of the graph. */
  ghost function AllFacts(g: Levels): (fs: set<Fact>)
    ensures forall f :: f in fs <==> IsNode(g, f.from) && IsNode(g, f.to)
  {
    var fs := set x, y, s | x in Nodes(g) && y in Nodes(g) && s in States() :: Fact(x, y, s);
    assert forall f: Fact :: f in fs <== f.from in Nodes(g) && f.to in Nodes(g) by {
      forall f: Fact | f.from in Nodes(g) && f.to in Nodes(g)
        ensures f in fs
      {
        StateListed(f.state);
        assert f == Fact(f.from, f.to, f.state);
      }
    }
    fs
  }

  ghost function AllMems(g: Levels): (ms: set<MemAlias>)
    ensures forall m :: m in ms <==> IsNode(g, m.lhs) && IsNode(g, m.rhs)
  {
    var ms := set x, y | x in Nodes(g) && y in Nodes(g) :: MemAlias(x, y);
    assert forall m: MemAlias :: m in ms <== m.lhs in Nodes(g) && m.rhs in Nodes(g) by {
      forall m: MemAlias | m.lhs in Nodes(g) && m.rhs in Nodes(g)
        ensures m in ms
      {
        assert m == MemAlias(m.lhs, m.rhs);
      }
    }
    ms
  }

  ghost function LeastFacts(g: Levels, filter: bool): set<Fact> {
    set f | f in AllFacts(g) && forall R, M :: Closed(g, R, M, filter) ==> f in R
  }

  ghost function LeastMems(g: Levels, filter: bool): set<MemAlias> {
    set m | m in AllMems(g) && forall R, M :: Closed(g, R, M, filter) ==> m in M
  }

  lemma AllFactsClosed(g: Levels, filter: bool)
    requires WellFormed(g)
    ensures Closed(g, AllFacts(g), AllMems(g), filter)
  {
  }

  /** The rules grow with the memory aliases. */
  lemma MoreMems(g: Levels, M: set<MemAlias>, M': set<MemAlias>)
    requires M <= M'
    ensures forall f :: Starts(g, M, f) ==> Starts(g, M', f)
    ensures forall f, f' :: Extends(g, M, f, f') ==> Extends(g, M', f, f')
  {
  }

  /** On every well-formed graph the rules have a least solution: what all closed pairs share. */
  lemma LeastExists(g: Levels, filter: bool)
    requires WellFormed(g)
    ensures IsLeast(g, LeastFacts(g, filter), LeastMems(g, filter), filter)
  {
    var R, M := LeastFacts(g, filter), LeastMems(g, filter);
    AllFactsClosed(g, filter);
    forall R', M' | Closed(g, R', M', filter)
      ensures R <= R' && M <= M'
      ensures forall f :: Starts(g, M, f) && Kept(filter, f) ==> f in R'
      ensures forall f, f' :: f in R && Extends(g, M, f, f') && Kept(filter, f') ==> f' in R'
    {
      MoreMems(g, M, M');
    }
    forall f | f in R && IsNode(g, Below(f.from)) && IsNode(g, Below(f.to))
      ensures MemAlias(Below(f.from), Below(f.to)) in M
    {
    }
  }

  lemma LeastIsUnique(g: Levels, R: set<Fact>, M: set<MemAlias>, R': set<Fact>, M': set<MemAlias>, filter: bool)
    requires IsLeast(g, R, M, filter) && IsLeast(g, R', M', filter)
    ensures R == R' && M == M'
  {
  }

  /** Induction on how the facts of the least solution are derived. */
  lemma RuleInduction(g: Levels, R: set<Fact>, M: set<MemAlias>, filter: bool, P: Fact -> bool, Q: MemAlias -> bool)
    requires IsLeast(g, R, M, filter)
    requires forall f :: f in R && Starts(g, M, f)
                         && (f.state == FlowFromMemAliasNoReadWrite ==> Q(MemAlias(f.from, f.to)))
                         ==> P(f)
    requires forall f, f' :: f in R && P(f) && f' in R && Extends(g, M, f, f')
                             && (Some(f'.state) == MemStep(f.state) ==>
                                   Q(MemAlias(f.to, f'.to)) || Extends(g, {}, f, f'))
                             ==> P(f')
    requires forall f :: f in R && P(f) && MemAlias(Below(f.from), Below(f.to)) in M
                         ==> Q(MemAlias(Below(f.from), Below(f.to)))
    ensures forall f :: f in R ==> P(f)
    ensures forall m :: m in M ==> Q(m)
  {
    var R' := set f | f in R && P(f);
    var M' := set m | m in M && Q(m);
    MoreMems(g, M', M);
    assert Closed(g, R', M', filter);
  }

  // ---- dropping the pairs of equal nodes loses no alias

  /** The four states S1..S4 of the machine that does not tell reads from writes. */
  function Collapsed(s: MatchState): nat {
    match s
    case FlowFromReadOnly => 1
    case FlowFromMemAliasNoReadWrite => 2
    case FlowFromMemAliasReadOnly => 2
    case FlowToWriteOnly => 3
    case FlowToReadWrite => 3
    case FlowToMemAliasWriteOnly => 4
    case FlowToMemAliasReadWrite => 4
  }

  /** State t can do whatever state s can: S1 simulates all, and all simulate S4. */
  predicate Simulates(t: MatchState, s: MatchState) {
    Collapsed(t) == 1 || Collapsed(t) == Collapsed(s) || Collapsed(s) == 4
  }

  /** Each move of s is matched by t and leads to states that simulate again; a memory step
      of s needs no move at all, as t simulates already where it goes. */
  lemma SimulatesIsSimulation(t: MatchState, s: MatchState)
    requires Simulates(t, s)
    ensures Simulates(AssignStep(t), AssignStep(s))
    ensures RevAssignStep(s).Some? ==>
              RevAssignStep(t).Some? && Simulates(RevAssignStep(t).value, RevAssignStep(s).value)
    ensures MemStep(s).Some? ==>
              MemStep(t).Some? && Simulates(MemStep(t).value, MemStep(s).value) && Simulates(t, MemStep(s).value)
  {
  }

  /** u reaches what f reaches, at a state that can do at least as much. */
  ghost predicate Covered(R: set<Fact>, u: Node, f: Fact) {
    exists t :: Fact(u, f.to, t) in R && Simulates(t, f.state)
  }

  /** One more edge keeps a covered fact covered, unless it leads back to u itself; and
      a path that is back at u starts afresh. */
  lemma CoveredExtends(g: Levels, R: set<Fact>, M: set<MemAlias>, u: Node, f: Fact, f': Fact)
    requires Closed(g, R, M, true) && (f.to == u || Covered(R, u, f))
    requires Extends(g, M, f, f') && f'.to != u
    ensures Covered(R, u, f')
  {
    if f.to == u {
      var s := if Assigns(g, f.to, f'.to) && f'.state == AssignStep(f.state) then FlowToWriteOnly
               else if Assigns(g, f'.to, f.to) && Some(f'.state) == RevAssignStep(f.state) then FlowFromReadOnly
               else FlowFromMemAliasNoReadWrite;
      assert Starts(g, M, Fact(u, f'.to, s));
    } else {
      var t :| Fact(u, f.to, t) in R && Simulates(t, f.state);
      SimulatesIsSimulation(t, f.state);
      var t' := if Assigns(g, f.to, f'.to) && f'.state == AssignStep(f.state) then AssignStep(t)
                else if Assigns(g, f'.to, f.to) && Some(f'.state) == RevAssignStep(f.state) then RevAssignStep(t).value
                else MemStep(t).value;
      assert Extends(g, M, Fact(u, f.to, t), Fact(u, f'.to, t'));
    }
  }

  /** The filtered facts, with the pairs of equal nodes put back and closed under Simulates. */
  ghost predicate Refilled(g: Levels, R: set<Fact>, f: Fact) {
    IsNode(g, f.from) && IsNode(g, f.to) && (f.from == f.to || Covered(R, f.from, f))
  }

  ghost predicate RefilledMem(g: Levels, M: set<MemAlias>, m: MemAlias) {
    IsNode(g, m.lhs) && IsNode(g, m.rhs) && (m.lhs == m.rhs || m in M)
  }

  lemma RefilledExtends(g: Levels, R: set<Fact>, M: set<MemAlias>, M': set<MemAlias>, f: Fact, f': Fact)
    requires WellFormed(g) && Closed(g, R, M, true)
    requires forall m :: m in M' <==> RefilledMem(g, M, m)
    requires Refilled(g, R, f) && Extends(g, M', f, f')
    ensures Refilled(g, R, f')
  {
    if f'.to == f.from {
    } else if Extends(g, M, f, f') {
      CoveredExtends(g, R, M, f.from, f, f');
    } else {
      assert f.to == f'.to && Some(f'.state) == MemStep(f.state);
      var t :| Fact(f.from, f.to, t) in R && Simulates(t, f.state);
      SimulatesIsSimulation(t, f.state);
    }
  }

  lemma RefilledClosed(g: Levels, R: set<Fact>, M: set<MemAlias>, R': set<Fact>, M': set<MemAlias>)
    requires WellFormed(g) && Closed(g, R, M, true)
    requires forall f :: f in R' <==> Refilled(g, R, f)
    requires forall m :: m in M' <==> RefilledMem(g, M, m)
    ensures Closed(g, R', M', false)
  {
    forall f | Starts(g, M', f)
      ensures f in R'
    {
      if f.from != f.to {
        assert Starts(g, M, f);
      }
    }
    forall f, f' | f in R' && Extends(g, M', f, f')
      ensures f' in R'
    {
      RefilledExtends(g, R, M, M', f, f');
    }
  }

  /** Dropping every pair of equal nodes changes neither which distinct nodes are related at
      some state nor which distinct nodes are memory aliases. */
  lemma FilterLosesNoAlias(g: Levels, R: set<Fact>, M: set<MemAlias>, R2: set<Fact>, M2: set<MemAlias>)
    requires WellFormed(g) && IsLeast(g, R, M, true) && IsLeast(g, R2, M2, false)
    ensures forall x, y :: x != y ==> (Aliases(R, x, y) <==> Aliases(R2, x, y))
    ensures forall a, b :: a != b ==> (MemAlias(a, b) in M <==> MemAlias(a, b) in M2)
  {
    assert Closed(g, R2, M2, true);
    AllFactsClosed(g, true);
    var R' := set f | f in AllFacts(g) && Refilled(g, R, f);
    var M' := set m | m in AllMems(g) && RefilledMem(g, M, m);
    RefilledClosed(g, R, M, R', M');
    assert R2 <= R' && M2 <= M';
    forall x, y | x != y && Aliases(R2, x, y)
      ensures Aliases(R, x, y)
    {
      var s :| Fact(x, y, s) in R2;
      assert Covered(R, x, Fact(x, y, s));
    }
  }

  // ---- aliasing is symmetric

  /** The states of the paths without reverse assignments: plain and write-only ones. */
  predicate Forward(s: MatchState) {
    s.FlowFromMemAliasNoReadWrite? || s.FlowToWriteOnly? || s.FlowToMemAliasWriteOnly?
  }

  ghost predicate ForwardAliases(R: set<Fact>, x: Node, y: Node) {
    exists s :: Fact(x, y, s) in R && Forward(s)
  }

  /** Whatever t reaches, u reaches too if t is reached from u by reverse assignments. */
  lemma PrependRevAssign(g: Levels, R: set<Fact>, M: set<MemAlias>, u: Node, t: Node)
    requires WellFormed(g) && IsLeast(g, R, M, true) && Fact(u, t, FlowFromReadOnly) in R
    ensures forall f :: f in R && f.from == t && f.to != u ==> Aliases(R, u, f.to)
  {
    var P := (f: Fact) => f.from == t && f.to != u ==> Covered(R, u, f);
    forall f | f in R && Starts(g, M, f)
      ensures P(f)
    {
      if f.from == t && f.to != u {
        var s := if f.state == FlowFromReadOnly then FlowFromReadOnly
                 else if f.state == FlowToWriteOnly then FlowToReadWrite else FlowFromMemAliasReadOnly;
        assert Extends(g, M, Fact(u, t, FlowFromReadOnly), Fact(u, f.to, s));
      }
    }
    forall f, f' | f in R && P(f) && Extends(g, M, f, f')
      ensures P(f')
    {
      if f.from == t && f'.to != u {
        CoveredExtends(g, R, M, u, f, f');
      }
    }
    RuleInduction(g, R, M, true, P, (m: MemAlias) => true);
  }

  /** u reaches at a forward state what f reaches at one, and can still assign in memory if f can. */
  ghost predicate ForwardCovered(R: set<Fact>, u: Node, f: Fact) {
    exists s :: Fact(u, f.to, s) in R && Forward(s) && (f.state == FlowToWriteOnly ==> s == FlowToWriteOnly)
  }

  /** Whatever t reaches at a forward state, u reaches at one too if u is assigned to t. */
  lemma PrependAssign(g: Levels, R: set<Fact>, M: set<MemAlias>, u: Node, t: Node)
    requires WellFormed(g) && IsLeast(g, R, M, true) && Fact(u, t, FlowToWriteOnly) in R
    ensures forall f :: f in R && f.from == t && Forward(f.state) && f.to != u ==> ForwardAliases(R, u, f.to)
  {
    var P := (f: Fact) => f.from == t && Forward(f.state) && f.to != u ==> ForwardCovered(R, u, f);
    forall f | f in R && Starts(g, M, f)
      ensures P(f)
    {
      if f.from == t && Forward(f.state) && f.to != u {
        var s := if f.state == FlowToWriteOnly then FlowToWriteOnly else FlowToMemAliasWriteOnly;
        assert Extends(g, M, Fact(u, t, FlowToWriteOnly), Fact(u, f.to, s));
      }
    }
    forall f, f' | f in R && P(f) && Extends(g, M, f, f')
      ensures P(f')
    {
      if f.from == t && Forward(f'.state) && f'.to != u {
        if f.to == u {
          var s := if f'.state == FlowToWriteOnly then FlowToWriteOnly else FlowFromMemAliasNoReadWrite;
          assert Starts(g, M, Fact(u, f'.to, s));
        } else {
          var s :| Fact(u, f.to, s) in R && Forward(s) && (f.state == FlowToWriteOnly ==> s == FlowToWriteOnly);
          assert Extends(g, M, Fact(u, f.to, s), Fact(u, f'.to, f'.state));
        }
      }
    }
    RuleInduction(g, R, M, true, P, (m: MemAlias) => true);
  }

  /** b is t itself or a memory alias of it. */
  predicate SameMemory(M: set<MemAlias>, b: Node, t: Node) {
    b == t || MemAlias(b, t) in M
  }

  /** The path of a fact, walked backwards, is accepted as well.  A path that ends in a
      (reverse) assignment stays accepted when its reversal is entered by a memory alias. */
  ghost predicate Reversible(R: set<Fact>, M: set<MemAlias>, f: Fact) {
    match f.state
    case FlowFromReadOnly => forall b :: SameMemory(M, b, f.to) ==> b == f.from || ForwardAliases(R, b, f.from)
    case FlowFromMemAliasNoReadWrite => ForwardAliases(R, f.to, f.from)
    case FlowFromMemAliasReadOnly => ForwardAliases(R, f.to, f.from)
    case FlowToWriteOnly => forall b :: SameMemory(M, b, f.to) ==> b == f.from || Aliases(R, b, f.from)
    case FlowToReadWrite => forall b :: SameMemory(M, b, f.to) ==> b == f.from || Aliases(R, b, f.from)
    case FlowToMemAliasWriteOnly => Aliases(R, f.to, f.from)
    case FlowToMemAliasReadWrite => Aliases(R, f.to, f.from)
  }

  /** A path into f.to over x -assign-> f.to, reversed: enter at b, go back to x, then on to f.from. */
  lemma ReverseAssign(g: Levels, R: set<Fact>, M: set<MemAlias>, b: Node, x: Node, f: Fact)
    requires WellFormed(g) && IsLeast(g, R, M, true)
    requires Assigns(g, x, f.to) && SameMemory(M, b, f.to) && (x == f.from || Aliases(R, x, f.from))
    ensures b == f.from || Aliases(R, b, f.from)
  {
    if b != f.from && b != x {
      if b == f.to {
        assert Starts(g, M, Fact(b, x, FlowFromReadOnly));
      } else {
        assert Starts(g, M, Fact(b, f.to, FlowFromMemAliasNoReadWrite));
        assert Extends(g, M, Fact(b, f.to, FlowFromMemAliasNoReadWrite), Fact(b, x, FlowFromReadOnly));
      }
      assert Fact(b, x, FlowFromReadOnly) in R;
      if x != f.from {
        PrependRevAssign(g, R, M, b, x);
      }
    }
  }

  /** The same for a path into f.to over f.to -assign-> x. */
  lemma ReverseRevAssign(g: Levels, R: set<Fact>, M: set<MemAlias>, b: Node, x: Node, f: Fact)
    requires WellFormed(g) && IsLeast(g, R, M, true)
    requires Assigns(g, f.to, x) && SameMemory(M, b, f.to) && (x == f.from || ForwardAliases(R, x, f.from))
    ensures b == f.from || ForwardAliases(R, b, f.from)
  {
    if b != f.from && b != x {
      if b == f.to {
        assert Starts(g, M, Fact(b, x, FlowToWriteOnly));
      } else {
        assert Starts(g, M, Fact(b, f.to, FlowFromMemAliasNoReadWrite));
        assert Extends(g, M, Fact(b, f.to, FlowFromMemAliasNoReadWrite), Fact(b, x, FlowToWriteOnly));
      }
      assert Fact(b, x, FlowToWriteOnly) in R;
      if x != f.from {
        PrependAssign(g, R, M, b, x);
      }
    }
  }

  lemma ReversibleAliases(g: Levels, R: set<Fact>, M: set<MemAlias>, f: Fact)
    requires f in R && Reversible(R, M, f) && f.from != f.to
    ensures Aliases(R, f.to, f.from)
    ensures RevAssignStep(f.state).Some? ==> ForwardAliases(R, f.to, f.from)
  {
    assert SameMemory(M, f.to, f.to);
  }

  lemma ReversibleStarts(g: Levels, R: set<Fact>, M: set<MemAlias>, f: Fact)
    requires WellFormed(g) && IsLeast(g, R, M, true)
    requires Starts(g, M, f) && f.from != f.to
    requires f.state == FlowFromMemAliasNoReadWrite ==> MemAlias(f.to, f.from) in M
    ensures Reversible(R, M, f)
  {
    match f.state {
      case FlowFromReadOnly =>
        forall b | SameMemory(M, b, f.to)
          ensures b == f.from || ForwardAliases(R, b, f.from)
        {
          ReverseRevAssign(g, R, M, b, f.from, f);
        }
      case FlowToWriteOnly =>
        forall b | SameMemory(M, b, f.to)
          ensures b == f.from || Aliases(R, b, f.from)
        {
          ReverseAssign(g, R, M, b, f.from, f);
        }
      case FlowFromMemAliasNoReadWrite =>
        assert Starts(g, M, Fact(f.to, f.from, FlowFromMemAliasNoReadWrite));
    }
  }

  lemma ReversibleExtends(g: Levels, R: set<Fact>, M: set<MemAlias>, f: Fact, f': Fact)
    requires WellFormed(g) && IsLeast(g, R, M, true)
    requires f in R && Reversible(R, M, f) && f.from != f.to && f'.from != f'.to && Extends(g, M, f, f')
    requires Some(f'.state) == MemStep(f.state) ==> MemAlias(f'.to, f.to) in M || Extends(g, {}, f, f')
    ensures Reversible(R, M, f')
  {
    ReversibleAliases(g, R, M, f);
    if Assigns(g, f.to, f'.to) && f'.state == AssignStep(f.state) {
      forall b | SameMemory(M, b, f'.to)
        ensures b == f.from || Aliases(R, b, f.from)
      {
        ReverseAssign(g, R, M, b, f.to, f');
      }
    } else if Assigns(g, f'.to, f.to) && Some(f'.state) == RevAssignStep(f.state) {
      forall b | SameMemory(M, b, f'.to)
        ensures b == f.from || ForwardAliases(R, b, f.from)
      {
        ReverseRevAssign(g, R, M, b, f.to, f');
      }
    } else {
      assert SameMemory(M, f'.to, f.to);
    }
  }

  /** Although the state machine is directional, "reachable at some state" and the memory
      aliases are symmetric in the least solution. */
  lemma AliasingIsSymmetric(g: Levels, R: set<Fact>, M: set<MemAlias>)
    requires WellFormed(g) && IsLeast(g, R, M, true)
    ensures forall x, y :: Aliases(R, x, y) <==> Aliases(R, y, x)
    ensures forall a, b :: MemAlias(a, b) in M <==> MemAlias(b, a) in M
  {
    OnlyDistinctPairs(g, R, M);
    var P := (f: Fact) => Reversible(R, M, f);
    var Q := (m: MemAlias) => MemAlias(m.rhs, m.lhs) in M;
    forall f | f in R && Starts(g, M, f) && (f.state == FlowFromMemAliasNoReadWrite ==> Q(MemAlias(f.from, f.to)))
      ensures P(f)
    {
      ReversibleStarts(g, R, M, f);
    }
    forall f, f' | f in R && P(f) && f' in R && Extends(g, M, f, f')
                   && (Some(f'.state) == MemStep(f.state) ==> Q(MemAlias(f.to, f'.to)) || Extends(g, {}, f, f'))
      ensures P(f')
    {
      ReversibleExtends(g, R, M, f, f');
    }
    forall f | f in R && P(f) && MemAlias(Below(f.from), Below(f.to)) in M
      ensures Q(MemAlias(Below(f.from), Below(f.to)))
    {
      ReversibleAliases(g, R, M, f);
      NodesOfMems(g, R, M);
      var s :| Fact(f.to, f.from, s) in R;
    }
    RuleInduction(g, R, M, true, P, Q);
    forall f | f in R
      ensures Aliases(R, f.to, f.from)
    {
      ReversibleAliases(g, R, M, f);
    }
  }

  lemma OnlyDistinctPairs(g: Levels, R: set<Fact>, M: set<MemAlias>)
    requires IsLeast(g, R, M, true)
    ensures forall f :: f in R ==> f.from != f.to
  {
    var R' := set f | f in R && f.from != f.to;
    assert Closed(g, R', M, true);
  }

  lemma NodesOfMems(g: Levels, R: set<Fact>, M: set<MemAlias>)
    requires WellFormed(g) && IsLeast(g, R, M, true)
    ensures R <= AllFacts(g) && M <= AllMems(g)
  {
    AllFactsClosed(g, true);
  }
}
