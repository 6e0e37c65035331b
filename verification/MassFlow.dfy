/** Handing the mass of the blocks of a loop on to their successors, block after block. */
module MassFlow {
  import opened Powers
  import opened MassArithmetic
  import opened MassWeights
  import opened MassDistribution
  import opened MassShares

  /** What a weight gets of the mass that is left. */
  function Share(weight: nat, remWeight: nat, remMass: Mass): (m: Mass)
    requires 0 < weight <= remWeight < U32
    ensures m <= remMass && (weight == remWeight ==> m == remMass)
  {
    var n := Probability(weight, remWeight);
    PartOfMass(remMass, n);
    Quotient(remMass * n, D)
  }

  lemma ShareIsProportional(weight: nat, remWeight: nat, remMass: Mass)
    requires 0 < weight <= remWeight < U32
    ensures NearlyPart(Share(weight, remWeight, remMass), weight, remWeight, remMass, 1)
  {
    var n := Probability(weight, remWeight);
    QuotientBounds(remMass * n, D, Quotient(remMass * n, D));
    PartIsProportional(Share(weight, remWeight, remMass), n, remMass, weight, remWeight);
  }

  function Give(f: Flow, w: Weight, m: Mass): Flow
    requires w.kind.Local? ==> w.target < |f.masses|
  {
    match w.kind
    case Local => f.(masses := f.masses[w.target := Plus(f.masses[w.target], m)])
    case Backedge => f.(backedge := Plus(f.backedge, m))
    case Exit => f.(exits := f.exits + [(w.target, m)])
  }

  /** Weights that add up to remWeight, with local targets among n blocks. */
  ghost predicate Handable(ws: WeightList, remWeight: int, n: nat) {
    && Sum(ws) == remWeight < U32
    && forall i :: 0 <= i < |ws| ==> 0 < ws[i].amount && (ws[i].kind.Local? ==> ws[i].target < n)
  }

  lemma {:induction false} SumHead(ws: WeightList)
    requires ws != []
    ensures Sum(ws) == ws[0].amount + Sum(ws[1..])
  {
    if |ws| > 1 {
      SumHead(Front(ws));
      assert Front(ws)[1..] == Front(ws[1..]);
    }
  }

  lemma HandableTail(ws: WeightList, remWeight: int, n: nat)
    requires Handable(ws, remWeight, n) && ws != []
    ensures 0 < ws[0].amount <= remWeight && Handable(ws[1..], remWeight - ws[0].amount, n)
    ensures |ws| == 1 ==> ws[0].amount == remWeight
  {
    SumHead(ws);
    SumIsNonNegative(ws[1..]);
  }

  /** A mass has been shared out nearly in proportion to the weights, to where they say. */
  ghost predicate SharedOut(f: Flow, f': Flow, ws: WeightList, total: int, mass: Mass) {
    exists shares :: Proportional(ws, total, mass, shares) && Received(f, f', ws, shares)
  }

  /** What is left is shared out again at every weight, so that rounding errors are passed on. */
  ghost function HandOut(f: Flow, ws: WeightList, remWeight: int, remMass: Mass): Flow
    requires Handable(ws, remWeight, |f.masses|)
    decreases |ws|
  {
    if ws == [] then f
    else
      HandableTail(ws, remWeight, |f.masses|);
      var m := Share(ws[0].amount, remWeight, remMass);
      HandOut(Give(f, ws[0], m), ws[1..], remWeight - ws[0].amount, remMass - m)
  }

  lemma HandOutStep(f: Flow, ws: WeightList, remWeight: int, remMass: Mass)
    requires Handable(ws, remWeight, |f.masses|) && ws != []
    ensures 0 < ws[0].amount <= remWeight && Handable(ws[1..], remWeight - ws[0].amount, |f.masses|)
    ensures var m := Share(ws[0].amount, remWeight, remMass);
            && m <= remMass && (ws[0].kind.Local? ==> ws[0].target < |f.masses|)
            && |Give(f, ws[0], m).masses| == |f.masses|
            && HandOut(f, ws, remWeight, remMass)
            == HandOut(Give(f, ws[0], m), ws[1..], remWeight - ws[0].amount, remMass - m)
  {
    HandableTail(ws, remWeight, |f.masses|);
  }

  lemma NothingLeft(ws: WeightList, i: nat)
    requires i == |ws|
    ensures ws[i..] == []
  {
  }

  /** The shares, one for each weight. */
  ghost function Shares(ws: WeightList, remWeight: int, remMass: Mass, n: nat): (r: seq<Mass>)
    requires Handable(ws, remWeight, n)
    ensures |r| == |ws|
    decreases |ws|
  {
    if ws == [] then []
    else
      HandableTail(ws, remWeight, n);
      var m := Share(ws[0].amount, remWeight, remMass);
      [m] + Shares(ws[1..], remWeight - ws[0].amount, remMass - m, n)
  }

  lemma {:induction false} SharesAddUp(ws: WeightList, remWeight: int, remMass: Mass, n: nat)
    requires Handable(ws, remWeight, n) && ws != []
    ensures SumOf(Shares(ws, remWeight, remMass, n)) == remMass
    decreases |ws|
  {
    HandableTail(ws, remWeight, n);
    var m := Share(ws[0].amount, remWeight, remMass);
    var rest := Shares(ws[1..], remWeight - ws[0].amount, remMass - m, n);
    assert Shares(ws, remWeight, remMass, n) == [m] + rest && ([m] + rest)[1..] == rest;
    if |ws| > 1 {
      SharesAddUp(ws[1..], remWeight - ws[0].amount, remMass - m, n);
    }
  }

  lemma {:induction false} SharesAreNear(ws: WeightList, remWeight: int, remMass: Mass, n: nat, W: int, M: int, k: nat,
                                         i: nat)
    requires Handable(ws, remWeight, n) && remWeight <= W && remMass <= M && NearlyPart(remMass, remWeight, W, M, k)
    requires i < |ws|
    ensures NearlyPart(Shares(ws, remWeight, remMass, n)[i], ws[i].amount, W, M, k + i + 1)
    decreases |ws|
  {
    HandableTail(ws, remWeight, n);
    var m := Share(ws[0].amount, remWeight, remMass);
    ShareIsProportional(ws[0].amount, remWeight, remMass);
    NextShare(m, ws[0].amount, remWeight, remMass, W, M, k);
    if i > 0 {
      SharesAreNear(ws[1..], remWeight - ws[0].amount, remMass - m, n, W, M, k + 1, i - 1);
    }
  }

  lemma SharesAreProportional(ws: WeightList, total: int, mass: Mass, n: nat)
    requires Handable(ws, total, n)
    ensures Proportional(ws, total, mass, Shares(ws, total, mass, n))
  {
    var shares := Shares(ws, total, mass, n);
    if ws != [] {
      SharesAddUp(ws, total, mass, n);
    }
    forall i: nat
      ensures ShareAt(ws, total, mass, shares, i)
    {
      if i < |ws| {
        SharesAreNear(ws, total, mass, n, total, mass, 0, i);
      }
    }
  }

  lemma GiveReceived(f: Flow, w: Weight, m: Mass)
    requires w.kind.Local? ==> w.target < |f.masses|
    ensures Received(f, Give(f, w, m), [w], [m])
  {
    OneShare(w, m, [], []);
  }

  lemma ReceivedTwice(f: Flow, f1: Flow, f2: Flow, w: Weight, m: Mass, ws: WeightList, shares: seq<Mass>)
    requires Received(f, f1, [w], [m]) && Received(f1, f2, ws, shares)
    ensures Received(f, f2, [w] + ws, [m] + shares)
  {
    OneShare(w, m, [], []);
    OneShare(w, m, ws, shares);
  }

  lemma {:induction false} HandOutReceived(f: Flow, ws: WeightList, remWeight: int, remMass: Mass)
    requires Handable(ws, remWeight, |f.masses|)
    ensures Received(f, HandOut(f, ws, remWeight, remMass), ws, Shares(ws, remWeight, remMass, |f.masses|))
    decreases |ws|
  {
    if ws != [] {
      HandOutStep(f, ws, remWeight, remMass);
      var m := Share(ws[0].amount, remWeight, remMass);
      var f1 := Give(f, ws[0], m);
      HandOutReceived(f1, ws[1..], remWeight - ws[0].amount, remMass - m);
      GiveReceived(f, ws[0], m);
      ReceivedTwice(f, f1, HandOut(f, ws, remWeight, remMass), ws[0], m, ws[1..],
                    Shares(ws[1..], remWeight - ws[0].amount, remMass - m, |f.masses|));
      assert ws == [ws[0]] + ws[1..];
    }
  }

  class DitheringDistributer {
    var remWeight: int
    var remMass: Mass

    constructor (weight: int, mass: Mass)
      ensures remWeight == weight && remMass == mass
    {
      remWeight, remMass := weight, mass;
    }

    /** The share of the next weight, which is taken away from what is left. */
    method TakeMass(weight: nat) returns (mass: Mass)
      requires 0 < weight <= remWeight < U32
      modifies this
      ensures mass == Share(weight, old(remWeight), old(remMass))
      ensures remWeight == old(remWeight) - weight && remMass == old(remMass) - mass
      ensures NearlyPart(mass, weight, old(remWeight), old(remMass), 1)
      ensures weight == old(remWeight) ==> mass == old(remMass)
    {
      ShareIsProportional(weight, remWeight, remMass);
      var n := Probability(weight, remWeight);
      PartOfMass(remMass, n);
      mass := Scale(remMass, n);
      remWeight := remWeight - weight;
      remMass := Minus(remMass, mass);
    }
  }

  // ---- conservation

  /** The mass of the blocks that are still to be handed on. */
  function MassOf(masses: seq<Mass>, nodes: seq<nat>): int
    requires forall k :: 0 <= k < |nodes| ==> nodes[k] < |masses|
  {
    if nodes == [] then 0 else masses[nodes[0]] + MassOf(masses, nodes[1..])
  }

  function ExitMass(exits: seq<(nat, Mass)>): int {
    if exits == [] then 0 else ExitMass(exits[..|exits| - 1]) + exits[|exits| - 1].1
  }

  /** All the mass there is, with the blocks in nodes still to be handed on. */
  function Held(f: Flow, nodes: seq<nat>): int
    requires forall k :: 0 <= k < |nodes| ==> nodes[k] < |f.masses|
  {
    MassOf(f.masses, nodes) + f.backedge + ExitMass(f.exits)
  }

  predicate Increasing(nodes: seq<nat>) {
    forall i, j :: 0 <= i < j < |nodes| ==> nodes[i] < nodes[j]
  }

  lemma {:induction false} MassOfUpdate(masses: seq<Mass>, nodes: seq<nat>, t: nat, m: Mass)
    requires (forall k :: 0 <= k < |nodes| ==> nodes[k] < |masses|) && Increasing(nodes) && t < |masses|
    ensures MassOf(masses[t := m], nodes) == MassOf(masses, nodes) + if t in nodes then m - masses[t] else 0
  {
    if nodes != [] {
      MassOfUpdate(masses, nodes[1..], t, m);
      assert t in nodes <==> t == nodes[0] || t in nodes[1..];
      assert t == nodes[0] ==> t !in nodes[1..];
    }
  }

  lemma {:induction false} MassOfBounds(masses: seq<Mass>, nodes: seq<nat>, t: nat)
    requires forall k :: 0 <= k < |nodes| ==> nodes[k] < |masses|
    ensures MassOf(masses, nodes) >= 0 && (t in nodes ==> masses[t] <= MassOf(masses, nodes))
  {
    if nodes != [] {
      MassOfBounds(masses, nodes[1..], t);
    }
  }

  lemma {:induction false} ExitMassIsNonNegative(exits: seq<(nat, Mass)>)
    ensures ExitMass(exits) >= 0
  {
    if exits != [] {
      ExitMassIsNonNegative(exits[..|exits| - 1]);
    }
  }

  /** Local edges lead to blocks that are still to be handed on. */
  ghost predicate Forward(ws: WeightList, nodes: seq<nat>) {
    forall i :: 0 <= i < |ws| && ws[i].kind.Local? ==> ws[i].target in nodes
  }

  /** As long as there is not more than full mass, giving saturates nowhere. */
  lemma GiveAddsMass(f: Flow, w: Weight, m: Mass, nodes: seq<nat>)
    requires (forall k :: 0 <= k < |nodes| ==> nodes[k] < |f.masses|) && Increasing(nodes)
    requires w.kind.Local? ==> w.target in nodes
    requires Held(f, nodes) + m <= FULL
    ensures w.kind.Local? ==> w.target < |f.masses|
    ensures Held(Give(f, w, m), nodes) == Held(f, nodes) + m
  {
    ExitMassIsNonNegative(f.exits);
    MassOfBounds(f.masses, nodes, w.target);
    match w.kind
    case Local =>
      MassOfUpdate(f.masses, nodes, w.target, Plus(f.masses[w.target], m));
    case Backedge =>
    case Exit =>
      assert (f.exits + [(w.target, m)])[..|f.exits|] == f.exits;
  }

  /** Handing out keeps all of the mass, to the last unit. */
  lemma {:induction false} HandOutConserves(f: Flow, ws: WeightList, remWeight: int, remMass: Mass, nodes: seq<nat>)
    requires Handable(ws, remWeight, |f.masses|) && (ws == [] ==> remMass == 0)
    requires (forall k :: 0 <= k < |nodes| ==> nodes[k] < |f.masses|) && Increasing(nodes) && Forward(ws, nodes)
    requires Held(f, nodes) + remMass <= FULL
    ensures var f' := HandOut(f, ws, remWeight, remMass);
            |f'.masses| == |f.masses| && Held(f', nodes) == Held(f, nodes) + remMass
    decreases |ws|
  {
    if ws != [] {
      HandableTail(ws, remWeight, |f.masses|);
      var m := Share(ws[0].amount, remWeight, remMass);
      GiveAddsMass(f, ws[0], m, nodes);
      HandOutConserves(Give(f, ws[0], m), ws[1..], remWeight - ws[0].amount, remMass - m, nodes);
    }
  }

  // ---- a loop with one header

  /** A successor, as the block that stands for it now, and the weight of the edge. */
  type Successor = (nat, nat)

  function EdgeWeight(s: Successor): nat {
    if s.1 == 0 then 1 else s.1
  }

  /** What kind of edge leads to a block, seen from the loop with the given blocks, header first. */
  function Classify(nodes: seq<nat>, succ: nat): DistType
    requires nodes != []
  {
    if succ == nodes[0] then Backedge else if succ !in nodes then Exit else Local
  }

  function WeightTo(nodes: seq<nat>, s: Successor): Weight
    requires nodes != []
  {
    Weight(Classify(nodes, s.0), s.0, EdgeWeight(s))
  }

  function WeightsTo(nodes: seq<nat>, succs: seq<Successor>): (ws: WeightList)
    requires nodes != []
    ensures |ws| == |succs| && forall i :: 0 <= i < |ws| ==> ws[i] == WeightTo(nodes, succs[i])
  {
    seq(|succs|, i requires 0 <= i < |succs| => WeightTo(nodes, succs[i]))
  }

  /** An edge back to a block of the loop other than its header. */
  predicate GoesBack(nodes: seq<nat>, pred: nat, succ: nat)
    requires nodes != []
  {
    succ != nodes[0] && succ in nodes && succ < pred
  }

  predicate AllForward(nodes: seq<nat>, pred: nat, succs: seq<Successor>)
    requires nodes != []
  {
    forall i :: 0 <= i < |succs| ==> !GoesBack(nodes, pred, succs[i].0)
  }

  /** What a distribution may be made of.  Only the header may be its own successor. */
  ghost predicate Distributable(nodes: seq<nat>, pred: nat, succs: seq<Successor>)
    requires nodes != []
  {
    && succs != [] && Sum(WeightsTo(nodes, succs)) < 2 * U64 && TotalFits(WeightsTo(nodes, succs))
    && (forall i :: 0 <= i < |succs| ==> succs[i].1 < U64 && (succs[i].0 == pred ==> pred == nodes[0]))
  }

  /** The weight of an edge, as it counts for the loop with the given blocks, header first. */
  predicate IsWeightOf(w: Weight, nodes: seq<nat>, s: Successor)
    requires nodes != []
  {
    && w.target == s.0 && w.amount == (if s.1 == 0 then 1 else s.1)
    && (w.kind == Backedge <==> s.0 == nodes[0]) && (w.kind == Exit <==> s.0 !in nodes)
  }

  /** The weights ws, which add up to total, are those of the edges, normalised. */
  ghost predicate DistributionOf(ws: WeightList, total: int, nodes: seq<nat>, succs: seq<Successor>)
    requires nodes != []
  {
    exists was :: Normalized(ws, total, was) && |was| == |succs|
                  && forall k :: 0 <= k < |succs| ==> IsWeightOf(was[k], nodes, succs[k])
  }

  /** The mass of a block has been shared out over its edges. */
  ghost predicate HandedOn(f: Flow, f': Flow, nodes: seq<nat>, node: nat, succs: seq<Successor>)
    requires nodes != [] && node < |f.masses|
  {
    exists ws, total :: DistributionOf(ws, total, nodes, succs) && SharedOut(f, f', ws, total, f.masses[node])
  }

  lemma IsDistribution(ws: WeightList, total: int, nodes: seq<nat>, succs: seq<Successor>)
    requires nodes != [] && Normalized(ws, total, WeightsTo(nodes, succs))
    ensures DistributionOf(ws, total, nodes, succs)
  {
  }

  /** What one block hands on is neither lost nor made. */
  lemma Conserves(f: Flow, f': Flow, nodes: seq<nat>, i: nat, succs: seq<Successor>, ws: WeightList, total: int)
    requires i < |nodes| && Increasing(nodes) && forall k :: 0 <= k < |nodes| ==> nodes[k] < |f.masses|
    requires Distributable(nodes, nodes[i], succs) && AllForward(nodes, nodes[i], succs)
    requires Normalized(ws, total, WeightsTo(nodes, succs)) && Handable(ws, total, |f.masses|)
    requires Held(f, nodes[i..]) <= FULL && f' == HandOut(f, ws, total, f.masses[nodes[i]])
    ensures |f'.masses| == |f.masses| && Held(f', nodes[i + 1..]) == Held(f, nodes[i..])
  {
    LocalsAreForward(nodes, i, succs);
    NormalizedIsForward(ws, total, WeightsTo(nodes, succs), nodes[i + 1..]);
    HeldWithFirst(f, nodes, i);
    HandOutConserves(f, ws, total, f.masses[nodes[i]], nodes[i + 1..]);
  }

  /** No edge leads to the given block. */
  predicate NoneTo(succs: seq<Successor>, t: nat) {
    forall j :: 0 <= j < |succs| ==> succs[j].0 != t
  }

  predicate SomeTo(succs: seq<Successor>, t: nat) {
    exists j :: 0 <= j < |succs| && succs[j].0 == t
  }

  /** Exits lead out, and only edges to the header lead back. */
  ghost predicate KindsRight(ws: WeightList, nodes: seq<nat>, succs: seq<Successor>)
    requires nodes != []
  {
    forall i :: 0 <= i < |ws| ==>
      && (ws[i].kind == Exit ==> ws[i].target !in nodes && SomeTo(succs, ws[i].target))
      && (ws[i].kind == Backedge ==> SomeTo(succs, nodes[0]))
  }

  lemma DistributionKinds(ws: WeightList, total: int, nodes: seq<nat>, succs: seq<Successor>)
    requires nodes != [] && DistributionOf(ws, total, nodes, succs)
    ensures KindsRight(ws, nodes, succs)
  {
    var was: WeightList :| Normalized(ws, total, was) && |was| == |succs|
                           && forall k :: 0 <= k < |succs| ==> IsWeightOf(was[k], nodes, succs[k]);
    forall i | 0 <= i < |ws|
      ensures ws[i].kind == Exit ==> ws[i].target !in nodes && SomeTo(succs, ws[i].target)
      ensures ws[i].kind == Backedge ==> SomeTo(succs, nodes[0])
    {
      assert HasEdge(was, ws[i].kind, ws[i].target);
      var k :| 0 <= k < |was| && was[k].target == ws[i].target && was[k].kind == ws[i].kind;
      assert IsWeightOf(was[k], nodes, succs[k]) && succs[k].0 == ws[i].target;
    }
  }

  lemma ReceivedWhere(f: Flow, f': Flow, nodes: seq<nat>, succs: seq<Successor>, ws: WeightList, shares: seq<Mass>)
    requires nodes != [] && KindsRight(ws, nodes, succs) && Received(f, f', ws, shares)
    ensures f.exits <= f'.exits
    ensures forall e :: e in f'.exits && e !in f.exits ==> e.0 !in nodes && SomeTo(succs, e.0)
    ensures NoneTo(succs, nodes[0]) ==> f'.backedge == f.backedge
    ensures (forall j :: 0 <= j < |succs| ==> succs[j].0 in nodes) ==> f'.exits == f.exits
  {
    ExitsAreExits(ws, shares);
    if NoneTo(succs, nodes[0]) {
      NothingBack(ws, shares);
    }
    if forall j :: 0 <= j < |succs| ==> succs[j].0 in nodes {
      NothingOut(ws, shares);
    }
  }

  /** Mass leaves only over edges that lead out, and comes back only over edges to the header. */
  lemma HandedOnWhere(f: Flow, f': Flow, nodes: seq<nat>, node: nat, succs: seq<Successor>)
    requires nodes != [] && node < |f.masses| && HandedOn(f, f', nodes, node, succs)
    ensures f.exits <= f'.exits
    ensures forall e :: e in f'.exits && e !in f.exits ==> e.0 !in nodes && SomeTo(succs, e.0)
    ensures NoneTo(succs, nodes[0]) ==> f'.backedge == f.backedge
    ensures (forall j :: 0 <= j < |succs| ==> succs[j].0 in nodes) ==> f'.exits == f.exits
  {
    var ws: WeightList, total :| DistributionOf(ws, total, nodes, succs) && SharedOut(f, f', ws, total, f.masses[node]);
    DistributionKinds(ws, total, nodes, succs);
    var shares :| Proportional(ws, total, f.masses[node], shares) && Received(f, f', ws, shares);
    ReceivedWhere(f, f', nodes, succs, ws, shares);
  }

  class LoopMass {
    const nodes: seq<nat>
    var flow: Flow

    ghost predicate Valid()
      reads this
    {
      nodes != [] && Increasing(nodes) && forall k :: 0 <= k < |nodes| ==> nodes[k] < |flow.masses|
    }

    constructor (nodes: seq<nat>, blocks: nat)
      requires nodes != [] && Increasing(nodes) && forall k :: 0 <= k < |nodes| ==> nodes[k] < blocks
      ensures Valid() && this.nodes == nodes && flow == Flow(seq(blocks, i => 0), 0, [])
    {
      this.nodes, flow := nodes, Flow(seq(blocks, i => 0), 0, []);
    }

    /** Adds an edge to the distribution of pred: with weight one if it has none, and as a backedge
        exactly if it leads to the header, as an exit exactly if it leads out of the loop.  False if
        it goes back into the loop otherwise. */
    method AddToDist(dist: Distribution, pred: nat, succ: nat, weight0: nat) returns (ok: bool)
      requires Valid() && dist.Valid() && weight0 < U64 && Sum(dist.weights) + EdgeWeight((succ, weight0)) < 2 * U64
      modifies dist
      ensures ok <==> !(succ != nodes[0] && succ in nodes && succ < pred)
      ensures dist.Valid()
      ensures dist.weights == old(dist.weights) + if ok then [WeightTo(nodes, (succ, weight0))] else []
      ensures ok ==> IsWeightOf(dist.weights[|dist.weights| - 1], nodes, (succ, weight0))
    {
      var weight := weight0;
      if weight == 0 {
        weight := 1;
      }
      if succ == nodes[0] {
        dist.Add(succ, weight, Backedge);
        return true;
      }
      if succ !in nodes {
        dist.Add(succ, weight, Exit);
        return true;
      }
      if succ < pred {
        return false;
      }
      dist.Add(succ, weight, Local);
      return true;
    }

    /** Hands the mass of a block out over a distribution. */
    method DistributeMass(source: nat, dist: Distribution)
      requires Valid() && source < |flow.masses| && dist.weights != []
      requires dist.Valid() && OneKindEach(dist.weights) && TotalFits(dist.weights)
      requires forall i :: 0 <= i < |dist.weights| && dist.weights[i].kind.Local? ==>
                 dist.weights[i].target < |flow.masses|
      modifies this, dist
      ensures Normalized(dist.weights, dist.total, old(dist.weights))
      ensures Handable(dist.weights, dist.total, |old(flow).masses|)
      ensures flow == HandOut(old(flow), dist.weights, dist.total, old(flow).masses[source])
      ensures |flow.masses| == |old(flow).masses|
      ensures SharedOut(old(flow), flow, dist.weights, dist.total, old(flow).masses[source])
    {
      var mass := flow.masses[source];
      dist.Normalize();
      NormalizedIsHandable(dist.weights, dist.total, old(dist.weights), |flow.masses|);
      HandOutAll(dist.weights, dist.total, mass);
      SharesAreProportional(dist.weights, dist.total, mass, |old(flow).masses|);
      HandOutReceived(old(flow), dist.weights, dist.total, mass);
    }

    method HandOutAll(ws: WeightList, total: int, mass: Mass)
      requires Handable(ws, total, |flow.masses|)
      modifies this
      ensures flow == HandOut(old(flow), ws, total, mass) && |flow.masses| == |old(flow).masses|
    {
      var d := new DitheringDistributer(total, mass);
      var i := 0;
      assert ws[0..] == ws;
      while i < |ws|
        invariant 0 <= i <= |ws| && |flow.masses| == |old(flow).masses|
        invariant Handable(ws[i..], d.remWeight, |flow.masses|)
        invariant HandOut(flow, ws[i..], d.remWeight, d.remMass) == HandOut(old(flow), ws, total, mass)
      {
        assert ws[i..][0] == ws[i] && ws[i..][1..] == ws[i + 1..];
        HandOutOne(d, ws[i], ws[i..]);
        i := i + 1;
      }
      NothingLeft(ws, |ws|);
    }

    /** One weight: its share is taken and given. */
    method HandOutOne(d: DitheringDistributer, w: Weight, ghost ws: WeightList)
      requires Handable(ws, d.remWeight, |flow.masses|) && ws != [] && ws[0] == w
      modifies this, d
      ensures |flow.masses| == |old(flow).masses|
      ensures Handable(ws[1..], d.remWeight, |flow.masses|)
      ensures HandOut(flow, ws[1..], d.remWeight, d.remMass) == HandOut(old(flow), ws, old(d.remWeight), old(d.remMass))
    {
      HandOutStep(flow, ws, d.remWeight, d.remMass);
      var taken := d.TakeMass(w.amount);
      flow := Give(flow, w, taken);
    }

    /** The distribution of a block's mass; false if an edge goes back into the loop. */
    method GatherWeights(node: nat, succs: seq<Successor>) returns (ok: bool, dist: Distribution)
      requires Valid() && Distributable(nodes, node, succs)
      ensures fresh(dist) && dist.Valid() && (ok <==> AllForward(nodes, node, succs))
      ensures ok ==> dist.weights == WeightsTo(nodes, succs)
    {
      dist := new Distribution();
      ghost var ws := WeightsTo(nodes, succs);
      for k := 0 to |succs|
        invariant fresh(dist) && dist.Valid() && dist.weights == ws[..k]
        invariant AllForward(nodes, node, succs[..k])
      {
        NextFits(nodes, node, succs, k);
        ok := AddToDist(dist, node, succs[k].0, succs[k].1);
        if !ok {
          return;
        }
      }
      assert ws[..|ws|] == ws && succs[..|succs|] == succs;
      ok := true;
    }

    /** Hands the mass of the i-th block on to its successors; false, and nothing is done, if an
        edge goes back into the loop.  The mass of the other blocks still to come, what has come
        back and what has left grow by exactly the mass of the block. */
    method PropagateMassToSuccessors(i: nat, succs: seq<Successor>) returns (ok: bool)
      requires Valid() && i < |nodes| && Distributable(nodes, nodes[i], succs)
      requires Held(flow, nodes[i..]) <= FULL
      modifies this
      ensures Valid() && (ok <==> AllForward(nodes, nodes[i], succs))
      ensures if ok then Held(flow, nodes[i + 1..]) == Held(old(flow), nodes[i..]) else flow == old(flow)
      ensures ok ==> HandedOn(old(flow), flow, nodes, nodes[i], succs)
    {
      var node := nodes[i];
      var dist;
      ok, dist := GatherWeights(node, succs);
      if !ok {
        return;
      }
      LoopBlocksExist(nodes, i, succs, |flow.masses|);
      DistributeMass(node, dist);
      IsDistribution(dist.weights, dist.total, nodes, succs);
      Conserves(old(flow), flow, nodes, i, succs, dist.weights, dist.total);
    }

    /** What leaves the loop, as the loop scale takes it: full mass less what has come back. */
    method ComputeExitMass() returns (exitMass: Mass)
      requires Valid()
      ensures exitMass == FULL - flow.backedge
    {
      var totalBackedgeMass := Plus(0, flow.backedge);
      exitMass := Minus(FULL, totalBackedgeMass);
    }

    /** Every block in turn hands its mass on, until an edge goes back. */
    method HandOnThroughLoop(succs: seq<seq<Successor>>) returns (ok: bool, ghost pass: seq<Flow>)
      requires Valid() && |succs| == |nodes| && Held(flow, nodes) == FULL
      requires forall i :: 0 <= i < |nodes| ==> Distributable(nodes, nodes[i], succs[i])
      modifies this
      ensures Valid() && |pass| > 0 && pass[0] == old(flow)
      ensures ok <==> forall i :: 0 <= i < |nodes| ==> AllForward(nodes, nodes[i], succs[i])
      ensures ok ==> Held(flow, []) == FULL && Passed(pass, nodes, succs) && |pass| == |nodes| + 1
                     && pass[|nodes|] == flow
    {
      assert nodes[0..] == nodes;
      pass := [flow];
      for i := 0 to |nodes|
        invariant Valid() && Held(flow, nodes[i..]) == FULL
        invariant forall k :: 0 <= k < i ==> AllForward(nodes, nodes[k], succs[k])
        invariant |pass| == i + 1 && pass[i] == flow && pass[0] == old(flow)
        invariant Passed(pass, nodes, succs)
      {
        ok := PropagateMassToSuccessors(i, succs[i]);
        if !ok {
          return;
        }
        PassedOn(pass, flow, nodes, succs);
        pass := pass + [flow];
      }
      ok := true;
    }

    /** Gives the header full mass and hands it on through the loop, block after block, nearly in
        proportion to the weights of the edges.  It fails exactly if an edge goes back to another
        block than the header.  Otherwise nothing is lost: the exit mass that is computed by
        subtraction is the sum of the exits recorded, which all lead out of the loop; nothing comes
        back if no edge leads to the header, and everything does if no edge leads out. */
    method ComputeMassInLoop(succs: seq<seq<Successor>>) returns (ok: bool, exitMass: Mass)
      requires Valid() && |succs| == |nodes|
      requires forall i :: 0 <= i < |nodes| ==> Distributable(nodes, nodes[i], succs[i])
      requires flow == Flow(seq(|flow.masses|, i => 0), 0, [])
      modifies this
      ensures Valid()
      ensures ok <==> forall i, j :: 0 <= i < |nodes| && 0 <= j < |succs[i]| ==>
                        var t := succs[i][j].0; t == nodes[0] || t !in nodes || nodes[i] <= t
      ensures ok ==> exitMass == ExitMass(flow.exits) && flow.backedge + ExitMass(flow.exits) == FULL
      ensures ok ==> forall e :: e in flow.exits ==>
                e.0 !in nodes && exists i :: 0 <= i < |succs| && SomeTo(succs[i], e.0)
      ensures ok && (forall i :: 0 <= i < |succs| ==> NoneTo(succs[i], nodes[0])) ==> flow.backedge == 0
      ensures ok && (forall i, j :: 0 <= i < |succs| && 0 <= j < |succs[i]| ==> succs[i][j].0 in nodes) ==>
                flow.exits == [] && flow.backedge == FULL
      ensures ok ==> IsPass(old(flow), flow, nodes, succs)
    {
      exitMass := 0;
      StartsFull(flow, nodes);
      flow := flow.(masses := flow.masses[nodes[0] := FULL]);
      ghost var pass;
      ok, pass := HandOnThroughLoop(succs);
      WhenAllForward(nodes, succs);
      if !ok {
        return;
      }
      exitMass := ComputeExitMass();
      PassedWhere(pass, nodes, succs);
    }
  }

  lemma WhenAllForward(nodes: seq<nat>, succs: seq<seq<Successor>>)
    requires nodes != [] && |succs| == |nodes|
    ensures (forall i :: 0 <= i < |nodes| ==> AllForward(nodes, nodes[i], succs[i])) <==>
            forall i, j :: 0 <= i < |nodes| && 0 <= j < |succs[i]| ==>
              var t := succs[i][j].0; t == nodes[0] || t !in nodes || nodes[i] <= t
  {
    if forall i, j :: 0 <= i < |nodes| && 0 <= j < |succs[i]| ==>
              var t := succs[i][j].0; t == nodes[0] || t !in nodes || nodes[i] <= t {
      forall i, j | 0 <= i < |nodes| && 0 <= j < |succs[i]|
        ensures !GoesBack(nodes, nodes[i], succs[i][j].0)
      {
      }
    }
  }

  /** From each flow to the next the mass of one block has been handed on. */
  ghost predicate Passed(pass: seq<Flow>, nodes: seq<nat>, succs: seq<seq<Successor>>) {
    && nodes != [] && |succs| == |nodes| && 0 < |pass| <= |nodes| + 1
    && forall i :: 0 <= i < |pass| - 1 ==> PassedAt(pass, nodes, succs, i)
  }

  ghost predicate PassedAt(pass: seq<Flow>, nodes: seq<nat>, succs: seq<seq<Successor>>, i: nat)
    requires nodes != [] && |succs| == |nodes| && i + 1 < |pass| <= |nodes| + 1
  {
    nodes[i] < |pass[i].masses| && HandedOn(pass[i], pass[i + 1], nodes, nodes[i], succs[i])
  }

  /** The header got full mass, and then all blocks handed theirs on. */
  ghost predicate IsPass(f: Flow, f': Flow, nodes: seq<nat>, succs: seq<seq<Successor>>)
    requires nodes != [] && nodes[0] < |f.masses|
  {
    exists pass :: Passed(pass, nodes, succs) && |pass| == |nodes| + 1
                   && pass[0] == f.(masses := f.masses[nodes[0] := FULL]) && pass[|nodes|] == f'
  }

  lemma PassedOn(pass: seq<Flow>, f: Flow, nodes: seq<nat>, succs: seq<seq<Successor>>)
    requires Passed(pass, nodes, succs) && |pass| <= |nodes|
    requires var i := |pass| - 1;
             nodes[i] < |pass[i].masses| && HandedOn(pass[i], f, nodes, nodes[i], succs[i])
    ensures Passed(pass + [f], nodes, succs)
  {
    forall i | 0 <= i < |pass|
      ensures PassedAt(pass + [f], nodes, succs, i)
    {
      assert i < |pass| - 1 ==> PassedAt(pass, nodes, succs, i);
    }
  }

  lemma {:induction false} PassedWhere(pass: seq<Flow>, nodes: seq<nat>, succs: seq<seq<Successor>>)
    requires Passed(pass, nodes, succs) && pass[0].exits == [] && pass[0].backedge == 0
    ensures var f := pass[|pass| - 1];
            && (forall e :: e in f.exits ==> e.0 !in nodes && exists i :: 0 <= i < |succs| && SomeTo(succs[i], e.0))
            && ((forall i :: 0 <= i < |succs| ==> NoneTo(succs[i], nodes[0])) ==> f.backedge == 0)
            && ((forall i, j :: 0 <= i < |succs| && 0 <= j < |succs[i]| ==> succs[i][j].0 in nodes) ==> f.exits == [])
  {
    if |pass| > 1 {
      var n := |pass| - 2;
      var front := pass[..n + 1];
      forall i | 0 <= i < |front| - 1
        ensures PassedAt(front, nodes, succs, i)
      {
        assert PassedAt(pass, nodes, succs, i);
      }
      PassedWhere(front, nodes, succs);
      assert PassedAt(pass, nodes, succs, n);
      HandedOnWhere(pass[n], pass[n + 1], nodes, nodes[n], succs[n]);
    }
  }

  lemma {:induction false} ZeroMass(masses: seq<Mass>, nodes: seq<nat>)
    requires forall k :: 0 <= k < |nodes| ==> nodes[k] < |masses| && masses[nodes[k]] == 0
    ensures MassOf(masses, nodes) == 0
  {
    if nodes != [] {
      ZeroMass(masses, nodes[1..]);
    }
  }

  /** Only the header has mass at the start. */
  lemma StartsFull(f: Flow, nodes: seq<nat>)
    requires nodes != [] && Increasing(nodes) && forall k :: 0 <= k < |nodes| ==> nodes[k] < |f.masses|
    requires f == Flow(seq(|f.masses|, i => 0), 0, [])
    ensures Held(f.(masses := f.masses[nodes[0] := FULL]), nodes) == FULL
  {
    ZeroMass(f.masses, nodes);
    MassOfUpdate(f.masses, nodes, nodes[0], FULL);
  }

  lemma {:induction false} SumOfPrefix(ws: WeightList, k: nat)
    requires k <= |ws| && forall i :: 0 <= i < |ws| ==> ws[i].amount >= 0
    ensures Sum(ws[..k]) <= Sum(ws)
  {
    if k < |ws| {
      SumOfPrefix(Front(ws), k);
      assert Front(ws)[..k] == ws[..k];
    } else {
      assert ws[..k] == ws;
    }
  }

  lemma PrefixSum(ws: WeightList, k: nat)
    requires k < |ws| && forall i :: 0 <= i < |ws| ==> ws[i].amount >= 0
    ensures Sum(ws[..k]) + ws[k].amount <= Sum(ws)
  {
    assert ws[..k + 1] == ws[..k] + [ws[k]];
    SumAppend(ws[..k], ws[k]);
    SumOfPrefix(ws, k + 1);
  }

  lemma NextFits(nodes: seq<nat>, node: nat, succs: seq<Successor>, k: nat)
    requires nodes != [] && Distributable(nodes, node, succs) && k < |succs|
    ensures var ws := WeightsTo(nodes, succs);
            && succs[k].1 < U64 && Sum(ws[..k]) + EdgeWeight(succs[k]) < 2 * U64
            && ws[..k + 1] == ws[..k] + [WeightTo(nodes, succs[k])] && succs[..k + 1] == succs[..k] + [succs[k]]
  {
    PrefixSum(WeightsTo(nodes, succs), k);
  }

  /** Edges that do not go back lead to later blocks of the loop, or out, or to the header. */
  lemma LocalsAreForward(nodes: seq<nat>, i: nat, succs: seq<Successor>)
    requires nodes != [] && Increasing(nodes) && i < |nodes| && Distributable(nodes, nodes[i], succs)
    requires AllForward(nodes, nodes[i], succs)
    ensures Forward(WeightsTo(nodes, succs), nodes[i + 1..])
  {
  }

  lemma LoopBlocksExist(nodes: seq<nat>, i: nat, succs: seq<Successor>, n: nat)
    requires nodes != [] && i < |nodes| && forall k :: 0 <= k < |nodes| ==> nodes[k] < n
    ensures forall k :: 0 <= k < |succs| && WeightsTo(nodes, succs)[k].kind.Local? ==> succs[k].0 < n
    ensures OneKindEach(WeightsTo(nodes, succs))
  {
  }

  lemma HeldWithFirst(f: Flow, nodes: seq<nat>, i: nat)
    requires i < |nodes| && forall k :: 0 <= k < |nodes| ==> nodes[k] < |f.masses|
    ensures Held(f, nodes[i..]) == Held(f, nodes[i + 1..]) + f.masses[nodes[i]]
  {
    assert nodes[i..][1..] == nodes[i + 1..];
  }

  lemma NormalizedIsForward(ws: WeightList, total: int, was: WeightList, nodes: seq<nat>)
    requires Normalized(ws, total, was) && Forward(was, nodes)
    ensures Forward(ws, nodes)
  {
  }

  /** Normalised weights can be handed out. */
  lemma NormalizedIsHandable(ws: WeightList, total: int, was: WeightList, n: nat)
    requires Normalized(ws, total, was) && TotalFits(was)
    requires forall i :: 0 <= i < |was| && was[i].kind.Local? ==> was[i].target < n
    ensures Handable(ws, total, n)
  {
  }
}
