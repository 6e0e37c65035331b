/** Summing up, for callers, which of a function's return values and parameters share memory. */
module SteensSummary {
  import opened Options

  /** A stratified set, by its index. */
  type SetIndex = nat

  /** A return value (index 0) or parameter, dereferenced so many times. */
  datatype InterfaceValue = InterfaceValue(index: nat, level: nat)

  type Relation = (InterfaceValue, InterfaceValue)

  /** A return value or parameter and the set it is in. */
  type Root = (nat, SetIndex)

  const MAX_ARGS: nat := 50

  /** The set below each set that has one. */
  type Links = map<SetIndex, SetIndex>

  /** The set that is reached from a set by going down so many times. */
  function Below(below: Links, s: SetIndex, level: nat): Option<SetIndex> {
    if level == 0 then Some(s)
    else
      var t := Below(below, s, level - 1);
      if t.Some? && t.value in below then Some(below[t.value]) else None
  }

  // ---- what a list of relations implies

  datatype Derivation =
    | Given(k: nat)
    | Same
    | Symmetric(d: Derivation)
    | Transitive(d: Derivation, mid: InterfaceValue, e: Derivation)
    | Dereferenced(d: Derivation)

  function Deeper(v: InterfaceValue): InterfaceValue {
    v.(level := v.level + 1)
  }

  /** d shows that the relations make p and q the same: they are an equivalence, and what is the
      same stays so when it is dereferenced. */
  predicate Derives(rels: seq<Relation>, d: Derivation, p: InterfaceValue, q: InterfaceValue) {
    match d
    case Given(k) => k < |rels| && rels[k] == (p, q)
    case Same => p == q
    case Symmetric(d') => Derives(rels, d', q, p)
    case Transitive(d', m, e) => Derives(rels, d', p, m) && Derives(rels, e, m, q)
    case Dereferenced(d') =>
      p.level > 0 && q.level > 0
      && Derives(rels, d', p.(level := p.level - 1), q.(level := q.level - 1))
  }

  ghost predicate Related(rels: seq<Relation>, p: InterfaceValue, q: InterfaceValue) {
    exists d :: Derives(rels, d, p, q)
  }

  lemma {:induction false} MoreRelationsDerive(rels: seq<Relation>, rels': seq<Relation>, d: Derivation,
                                               p: InterfaceValue, q: InterfaceValue)
    requires Derives(rels, d, p, q) && rels <= rels'
    ensures Derives(rels', d, p, q)
  {
    match d
    case Given(_) =>
    case Same =>
    case Symmetric(d') => MoreRelationsDerive(rels, rels', d', q, p);
    case Transitive(d', m, e) =>
      MoreRelationsDerive(rels, rels', d', p, m);
      MoreRelationsDerive(rels, rels', e, m, q);
    case Dereferenced(d') =>
      MoreRelationsDerive(rels, rels', d', p.(level := p.level - 1), q.(level := q.level - 1));
  }

  lemma StillRelated(rels: seq<Relation>, rels': seq<Relation>, p: InterfaceValue, q: InterfaceValue)
    requires Related(rels, p, q) && rels <= rels'
    ensures Related(rels', p, q)
  {
    var d :| Derives(rels, d, p, q);
    MoreRelationsDerive(rels, rels', d, p, q);
  }

  lemma RelatedSelf(rels: seq<Relation>, p: InterfaceValue)
    ensures Related(rels, p, p)
  {
    assert Derives(rels, Same, p, p);
  }

  lemma RelatedTransitive(rels: seq<Relation>, p: InterfaceValue, q: InterfaceValue, r: InterfaceValue)
    requires Related(rels, p, q) && Related(rels, q, r)
    ensures Related(rels, p, r)
  {
    var d :| Derives(rels, d, p, q);
    var e :| Derives(rels, e, q, r);
    assert Derives(rels, Transitive(d, q, e), p, r);
  }

  lemma RelatedSymmetric(rels: seq<Relation>, p: InterfaceValue, q: InterfaceValue)
    requires Related(rels, p, q)
    ensures Related(rels, q, p)
  {
    var d :| Derives(rels, d, p, q);
    assert Derives(rels, Symmetric(d), q, p);
  }

  lemma RelatedDeeper(rels: seq<Relation>, p: InterfaceValue, q: InterfaceValue)
    requires Related(rels, p, q)
    ensures Related(rels, Deeper(p), Deeper(q))
  {
    var d :| Derives(rels, d, p, q);
    assert Derives(rels, Dereferenced(d), Deeper(p), Deeper(q));
  }

  // ---- the summary

  /** One attribute set that callers can see, for a set of values that has any. */
  type Attribute = (InterfaceValue, set<nat>)

  datatype Summary = Summary(relations: seq<Relation>, attributes: seq<Attribute>)

  /** The first interface value that was found in each set. */
  type InterfaceMap = map<SetIndex, InterfaceValue>

  ghost predicate IsAt(below: Links, roots: seq<Root>, v: InterfaceValue, s: SetIndex) {
    exists r :: r in roots && r.0 == v.index && Below(below, r.1, v.level) == Some(s)
  }

  /** The set below is in the map as well, and the relations show where. */
  ghost predicate LinkKept(below: Links, im: InterfaceMap, rels: seq<Relation>, s: SetIndex) {
    s in im && s in below ==> below[s] in im && Related(rels, Deeper(im[s]), im[below[s]])
  }

  /** A value that can be seen with attributes is in the summary with them. */
  ghost predicate AttributeKept(visible: map<SetIndex, set<nat>>, im: InterfaceMap, attrs: seq<Attribute>,
                                s: SetIndex) {
    s in im && s in visible && visible[s] != {} ==> (im[s], visible[s]) in attrs
  }

  /** Nothing is in the map or in the lists that is not so. */
  ghost predicate Right(below: Links, visible: map<SetIndex, set<nat>>, roots: seq<Root>, im: InterfaceMap,
                        sum: Summary) {
    && (forall s :: s in im ==> IsAt(below, roots, im[s], s))
    && (forall e :: e in sum.relations ==> Shares(below, roots, e))
    && (forall a :: a in sum.attributes ==> HasAttributes(below, visible, roots, a))
  }

  ghost predicate Shares(below: Links, roots: seq<Root>, e: Relation) {
    exists s :: IsAt(below, roots, e.0, s) && IsAt(below, roots, e.1, s)
  }

  ghost predicate HasAttributes(below: Links, visible: map<SetIndex, set<nat>>, roots: seq<Root>, a: Attribute) {
    exists s :: s in visible && visible[s] == a.1 != {} && IsAt(below, roots, a.0, s)
  }

  /** The whole way down from a root, except for the link from one set, is kept. */
  ghost predicate Kept(below: Links, visible: map<SetIndex, set<nat>>, im: InterfaceMap, sum: Summary,
                       except: set<SetIndex>) {
    && (forall s :: s !in except ==> LinkKept(below, im, sum.relations, s))
    && (forall s :: AttributeKept(visible, im, sum.attributes, s))
  }

  ghost predicate RootKept(im: InterfaceMap, rels: seq<Relation>, r: Root) {
    r.1 in im && Related(rels, InterfaceValue(r.0, 0), im[r.1])
  }

  /** Every place below a root is related to the value that the map holds for the set there. */
  lemma {:induction false} PlaceIsRelated(below: Links, visible: map<SetIndex, set<nat>>, im: InterfaceMap,
                                          sum: Summary, r: Root, level: nat, s: SetIndex)
    requires Kept(below, visible, im, sum, {}) && RootKept(im, sum.relations, r) && Below(below, r.1, level) == Some(s)
    ensures s in im && Related(sum.relations, InterfaceValue(r.0, level), im[s])
  {
    if level > 0 {
      var t := Below(below, r.1, level - 1).value;
      PlaceIsRelated(below, visible, im, sum, r, level - 1, t);
      assert LinkKept(below, im, sum.relations, t);
      RelatedDeeper(sum.relations, InterfaceValue(r.0, level - 1), im[t]);
      RelatedTransitive(sum.relations, InterfaceValue(r.0, level), Deeper(im[t]), im[s]);
    }
  }

  /** No sharing is lost: values that land in the same set are related. */
  ghost predicate Complete(below: Links, visible: map<SetIndex, set<nat>>, roots: seq<Root>, sum: Summary) {
    && (forall v, w, s :: IsAt(below, roots, v, s) && IsAt(below, roots, w, s) ==> Related(sum.relations, v, w))
    && (forall v, s :: IsAt(below, roots, v, s) && s in visible && visible[s] != {} ==>
          AttributeListed(sum, v, visible[s]))
  }

  ghost predicate AttributeListed(sum: Summary, v: InterfaceValue, attrs: set<nat>) {
    exists w :: (w, attrs) in sum.attributes && Related(sum.relations, v, w)
  }

  lemma KeptIsComplete(below: Links, visible: map<SetIndex, set<nat>>, roots: seq<Root>, im: InterfaceMap, sum: Summary)
    requires Kept(below, visible, im, sum, {}) && forall r :: r in roots ==> RootKept(im, sum.relations, r)
    ensures Complete(below, visible, roots, sum)
  {
    forall v, s | IsAt(below, roots, v, s)
      ensures s in im && Related(sum.relations, v, im[s])
    {
      var r :| r in roots && r.0 == v.index && Below(below, r.1, v.level) == Some(s);
      PlaceIsRelated(below, visible, im, sum, r, v.level, s);
      assert v == InterfaceValue(r.0, v.level);
    }
    forall v, w, s | IsAt(below, roots, v, s) && IsAt(below, roots, w, s)
      ensures Related(sum.relations, v, w)
    {
      RelatedSymmetric(sum.relations, w, im[s]);
      RelatedTransitive(sum.relations, v, im[s], w);
    }
    forall v, s | IsAt(below, roots, v, s) && s in visible && visible[s] != {}
      ensures AttributeListed(sum, v, visible[s])
    {
      assert AttributeKept(visible, im, sum.attributes, s);
    }
  }

  // ---- exactly when the summary relates no more than it should

  ghost predicate Placed(below: Links, roots: seq<Root>, v: InterfaceValue) {
    exists s :: IsAt(below, roots, v, s)
  }

  /** Relations between values that are in sets are exactly the sharing of sets. */
  ghost predicate IsExact(below: Links, roots: seq<Root>, sum: Summary) {
    forall v, w :: Placed(below, roots, v) || Placed(below, roots, w) ==>
                     (Related(sum.relations, v, w) <==> Shares(below, roots, (v, w)))
  }

  /** The same value, a common set, or no sets at all. */
  ghost predicate Together(below: Links, roots: seq<Root>, v: InterfaceValue, w: InterfaceValue) {
    || v == w || Shares(below, roots, (v, w))
    || (!Placed(below, roots, v) && !Placed(below, roots, w))
  }

  /** Values that go together with the same value go together, and so does what they point to. */
  ghost predicate SetsAgree(below: Links, roots: seq<Root>) {
    && (forall u, v, w :: Together(below, roots, u, v) && Together(below, roots, v, w) ==> Together(below, roots, u, w))
    && (forall v, w :: Together(below, roots, v, w) ==> Together(below, roots, Deeper(v), Deeper(w)))
  }

  lemma {:induction false} RelatedIsTogether(below: Links, roots: seq<Root>, rels: seq<Relation>, d: Derivation,
                                             p: InterfaceValue, q: InterfaceValue)
    requires SetsAgree(below, roots) && Derives(rels, d, p, q) && forall e :: e in rels ==> Shares(below, roots, e)
    ensures Together(below, roots, p, q)
  {
    match d
    case Given(k) =>
      assert Shares(below, roots, rels[k]);
    case Same =>
    case Symmetric(d') =>
      RelatedIsTogether(below, roots, rels, d', q, p);
    case Transitive(d', m, e) =>
      RelatedIsTogether(below, roots, rels, d', p, m);
      RelatedIsTogether(below, roots, rels, e, m, q);
    case Dereferenced(d') =>
      var p', q' := p.(level := p.level - 1), q.(level := q.level - 1);
      RelatedIsTogether(below, roots, rels, d', p', q');
      assert p == Deeper(p') && q == Deeper(q');
  }

  /** A summary that lists only what is so, and implies all sharing, is exact if and only if the
      sets of the function agree. */
  lemma ExactIffSetsAgree(below: Links, visible: map<SetIndex, set<nat>>, roots: seq<Root>, im: InterfaceMap,
                          sum: Summary)
    requires Complete(below, visible, roots, sum) && Right(below, visible, roots, im, sum)
    ensures IsExact(below, roots, sum) <==> SetsAgree(below, roots)
  {
    if SetsAgree(below, roots) {
      forall v, w | Placed(below, roots, v) || Placed(below, roots, w)
        ensures Related(sum.relations, v, w) <==> Shares(below, roots, (v, w))
      {
        if Related(sum.relations, v, w) {
          var d :| Derives(sum.relations, d, v, w);
          RelatedIsTogether(below, roots, sum.relations, d, v, w);
        }
      }
    }
    if IsExact(below, roots, sum) {
      forall u, v, w | Together(below, roots, u, v) && Together(below, roots, v, w)
        ensures Together(below, roots, u, w)
      {
        if Placed(below, roots, v) {
          SharingRelates(below, visible, roots, sum, u, v, w);
        }
      }
      forall v, w | Together(below, roots, v, w)
        ensures Together(below, roots, Deeper(v), Deeper(w))
      {
        DeeperTogether(below, visible, roots, sum, v, w);
      }
    }
  }

  /** Two values that each share a set with a third one are related, whether or not they share one. */
  lemma SharingRelates(below: Links, visible: map<SetIndex, set<nat>>, roots: seq<Root>, sum: Summary,
                       u: InterfaceValue, v: InterfaceValue, w: InterfaceValue)
    requires Complete(below, visible, roots, sum)
    requires u == v || Shares(below, roots, (u, v))
    requires v == w || Shares(below, roots, (v, w))
    ensures Related(sum.relations, u, w)
  {
    RelatedSelf(sum.relations, u);
    RelatedSelf(sum.relations, w);
    RelatedTransitive(sum.relations, u, v, w);
  }

  lemma DeeperTogether(below: Links, visible: map<SetIndex, set<nat>>, roots: seq<Root>, sum: Summary,
                       v: InterfaceValue, w: InterfaceValue)
    requires Complete(below, visible, roots, sum) && IsExact(below, roots, sum) && Together(below, roots, v, w)
    ensures Together(below, roots, Deeper(v), Deeper(w))
  {
    if Shares(below, roots, (v, w)) {
      RelatedDeeper(sum.relations, v, w);
    } else if v != w {
      forall s
        ensures !IsAt(below, roots, Deeper(v), s) && !IsAt(below, roots, Deeper(w), s)
      {
        OneDeeper(below, roots, v, s);
        OneDeeper(below, roots, w, s);
      }
    }
  }

  /** Only return values, of index 0, have more than one root. */
  ghost predicate OneRootEach(roots: seq<Root>) {
    forall r, r' :: r in roots && r' in roots && r.0 == r'.0 != 0 ==> r == r'
  }

  function Returned(level: nat): InterfaceValue {
    InterfaceValue(0, level)
  }

  /** What shares a set with the return values, dereferenced so many times, shares one with each
      other; and if the return values can be dereferenced once more, that shares a set with them. */
  ghost predicate ReturnsAgreeAt(below: Links, roots: seq<Root>, level: nat) {
    && (forall v, w :: Shares(below, roots, (Returned(level), v)) && Shares(below, roots, (Returned(level), w)) ==>
          Shares(below, roots, (v, w)))
    && (forall v :: Shares(below, roots, (Returned(level), v)) && Placed(below, roots, Returned(level + 1)) ==>
          Shares(below, roots, (Returned(level + 1), Deeper(v))))
  }

  ghost predicate ReturnsAgree(below: Links, roots: seq<Root>) {
    forall level: nat {:trigger ReturnsAgreeAt(below, roots, level)} :: ReturnsAgreeAt(below, roots, level)
  }

  lemma SharesSymmetric(below: Links, roots: seq<Root>, v: InterfaceValue, w: InterfaceValue)
    ensures Shares(below, roots, (v, w)) <==> Shares(below, roots, (w, v))
  {
  }

  /** A parameter is in one place at most. */
  lemma OnePlace(below: Links, roots: seq<Root>, v: InterfaceValue, s: SetIndex, s': SetIndex)
    requires OneRootEach(roots) && v.index != 0 && IsAt(below, roots, v, s) && IsAt(below, roots, v, s')
    ensures s == s'
  {
  }

  lemma AgreeingIsTransitive(below: Links, roots: seq<Root>, u: InterfaceValue, v: InterfaceValue, w: InterfaceValue)
    requires OneRootEach(roots) && ReturnsAgree(below, roots)
    requires Together(below, roots, u, v) && Together(below, roots, v, w)
    ensures Together(below, roots, u, w)
  {
    if Shares(below, roots, (u, v)) && Shares(below, roots, (v, w)) {
      if v.index == 0 {
        assert ReturnsAgreeAt(below, roots, v.level) && v == Returned(v.level);
        SharesSymmetric(below, roots, u, v);
      } else {
        var s :| IsAt(below, roots, u, s) && IsAt(below, roots, v, s);
        var t :| IsAt(below, roots, v, t) && IsAt(below, roots, w, t);
        OnePlace(below, roots, v, s, t);
      }
    }
  }

  /** Where a parameter is dereferenced to. */
  lemma DeeperOfParameter(below: Links, roots: seq<Root>, v: InterfaceValue, s: SetIndex)
    requires OneRootEach(roots) && v.index != 0 && IsAt(below, roots, v, s)
    ensures forall t :: IsAt(below, roots, Deeper(v), t) <==> s in below && below[s] == t
  {
    forall t
      ensures IsAt(below, roots, Deeper(v), t) <==> s in below && below[s] == t
    {
      OneDeeper(below, roots, v, t);
      if u :| IsAt(below, roots, v, u) && u in below && below[u] == t {
        OnePlace(below, roots, v, s, u);
      }
    }
  }

  lemma DeeperOfReturned(below: Links, roots: seq<Root>, v: InterfaceValue, s: SetIndex)
    requires IsAt(below, roots, v, s) && s in below
    ensures IsAt(below, roots, Deeper(v), below[s])
  {
    OneDeeper(below, roots, v, below[s]);
  }

  lemma DeeperIsPlaced(below: Links, roots: seq<Root>, v: InterfaceValue, w: InterfaceValue)
    requires OneRootEach(roots) && ReturnsAgree(below, roots) && Shares(below, roots, (v, w)) && v.index == 0
    requires Placed(below, roots, Deeper(w))
    ensures Placed(below, roots, Deeper(v))
  {
    if w.index == 0 {
      assert ReturnsAgreeAt(below, roots, w.level) && w == Returned(w.level) && Deeper(w) == Returned(w.level + 1);
      SharesSymmetric(below, roots, v, w);
      assert Shares(below, roots, (Deeper(w), Deeper(v)));
    } else {
      var s :| IsAt(below, roots, v, s) && IsAt(below, roots, w, s);
      DeeperOfParameter(below, roots, w, s);
      DeeperOfReturned(below, roots, v, s);
    }
  }

  /** A return value and what shares a set with it stay together when dereferenced. */
  lemma AgreeingDeeper(below: Links, roots: seq<Root>, v: InterfaceValue, w: InterfaceValue)
    requires OneRootEach(roots) && ReturnsAgree(below, roots) && Shares(below, roots, (v, w)) && v.index == 0
    ensures Together(below, roots, Deeper(v), Deeper(w))
  {
    assert ReturnsAgreeAt(below, roots, v.level) && v == Returned(v.level) && Deeper(v) == Returned(v.level + 1);
    if Placed(below, roots, Deeper(w)) {
      DeeperIsPlaced(below, roots, v, w);
    }
    if Placed(below, roots, Deeper(v)) {
      assert Shares(below, roots, (Deeper(v), Deeper(w)));
    }
  }

  lemma AgreeingDeeperAny(below: Links, roots: seq<Root>, v: InterfaceValue, w: InterfaceValue)
    requires OneRootEach(roots) && ReturnsAgree(below, roots) && Together(below, roots, v, w)
    ensures Together(below, roots, Deeper(v), Deeper(w))
  {
    if Shares(below, roots, (v, w)) {
      SharesSymmetric(below, roots, v, w);
      if v.index == 0 {
        AgreeingDeeper(below, roots, v, w);
      } else if w.index == 0 {
        AgreeingDeeper(below, roots, w, v);
        SharesSymmetric(below, roots, Deeper(v), Deeper(w));
      } else {
        var s :| IsAt(below, roots, v, s) && IsAt(below, roots, w, s);
        DeeperOfParameter(below, roots, v, s);
        DeeperOfParameter(below, roots, w, s);
        if s in below {
          assert IsAt(below, roots, Deeper(v), below[s]) && IsAt(below, roots, Deeper(w), below[s]);
        }
      }
    } else if v != w {
      forall s
        ensures !IsAt(below, roots, Deeper(v), s) && !IsAt(below, roots, Deeper(w), s)
      {
        OneDeeper(below, roots, v, s);
        OneDeeper(below, roots, w, s);
      }
    }
  }

  /** The sets agree exactly if they do around the return values. */
  lemma SetsAgreeIffReturnsDo(below: Links, roots: seq<Root>)
    requires OneRootEach(roots)
    ensures SetsAgree(below, roots) <==> ReturnsAgree(below, roots)
  {
    if ReturnsAgree(below, roots) {
      forall u, v, w | Together(below, roots, u, v) && Together(below, roots, v, w)
        ensures Together(below, roots, u, w)
      {
        AgreeingIsTransitive(below, roots, u, v, w);
      }
      forall v, w | Together(below, roots, v, w)
        ensures Together(below, roots, Deeper(v), Deeper(w))
      {
        AgreeingDeeperAny(below, roots, v, w);
      }
    }
    if SetsAgree(below, roots) {
      forall level: nat
        ensures ReturnsAgreeAt(below, roots, level)
      {
        AgreeAtLevel(below, roots, level);
      }
    }
  }

  lemma AgreeAtLevel(below: Links, roots: seq<Root>, level: nat)
    requires SetsAgree(below, roots)
    ensures ReturnsAgreeAt(below, roots, level)
  {
    var r := Returned(level);
    forall v, w | Shares(below, roots, (r, v)) && Shares(below, roots, (r, w))
      ensures Shares(below, roots, (v, w))
    {
      SharesSymmetric(below, roots, r, v);
      assert Together(below, roots, v, r) && Together(below, roots, r, w);
      PlacedShares(below, roots, v, w);
    }
    forall v | Shares(below, roots, (r, v)) && Placed(below, roots, Returned(level + 1))
      ensures Shares(below, roots, (Returned(level + 1), Deeper(v)))
    {
      assert Together(below, roots, r, v) && Deeper(r) == Returned(level + 1);
      PlacedShares(below, roots, Returned(level + 1), Deeper(v));
    }
  }

  lemma PlacedShares(below: Links, roots: seq<Root>, v: InterfaceValue, w: InterfaceValue)
    requires Together(below, roots, v, w) && Placed(below, roots, v)
    ensures Shares(below, roots, (v, w))
  {
    if v == w {
      var s :| IsAt(below, roots, v, s);
      assert IsAt(below, roots, (v, w).0, s) && IsAt(below, roots, (v, w).1, s);
    }
  }

  /** So whether a complete and right summary is exact depends on the return values alone: what
      shares sets with them at one level has to go on sharing. */
  lemma ExactIffReturnsAgree(below: Links, visible: map<SetIndex, set<nat>>, roots: seq<Root>, im: InterfaceMap,
                             sum: Summary)
    requires OneRootEach(roots) && Complete(below, visible, roots, sum) && Right(below, visible, roots, im, sum)
    ensures IsExact(below, roots, sum) <==> ReturnsAgree(below, roots)
  {
    ExactIffSetsAgree(below, visible, roots, im, sum);
    SetsAgreeIffReturnsDo(below, roots);
  }

  /** With one root for each index the sets agree. */
  lemma OneRootAgrees(below: Links, roots: seq<Root>)
    requires forall r, r' :: r in roots && r' in roots && r.0 == r'.0 ==> r == r'
    ensures SetsAgree(below, roots)
  {
    forall v, w | Together(below, roots, v, w)
      ensures Together(below, roots, Deeper(v), Deeper(w))
    {
      forall s
        ensures v != w ==> (IsAt(below, roots, Deeper(v), s) <==> IsAt(below, roots, Deeper(w), s))
      {
        OneDeeper(below, roots, v, s);
        OneDeeper(below, roots, w, s);
      }
    }
  }

  /** So with one root for each index the summary is exact. */
  lemma SummaryIsExact(below: Links, visible: map<SetIndex, set<nat>>, roots: seq<Root>, im: InterfaceMap, sum: Summary)
    requires forall r, r' :: r in roots && r' in roots && r.0 == r'.0 ==> r == r'
    requires Complete(below, visible, roots, sum) && Right(below, visible, roots, im, sum)
    ensures IsExact(below, roots, sum)
  {
    OneRootAgrees(below, roots);
    ExactIffSetsAgree(below, visible, roots, im, sum);
  }

  /** With two return values in different sets it need not be: two parameters in one of them each
      are related, in whatever way such a function is summed up. */
  lemma TwoReturnsRelateTooMuch(visible: map<SetIndex, set<nat>>, sum: Summary)
    requires Complete(map[], visible, ReturnRoots([Some(7), Some(8)]) + ParamRoots([Some(7), Some(8)]), sum)
    ensures !IsExact(map[], ReturnRoots([Some(7), Some(8)]) + ParamRoots([Some(7), Some(8)]), sum)
  {
    TheRoots();
    BothInOne([(0, 7), (0, 8), (1, 7), (2, 8)], visible, sum);
  }

  lemma BothInOne(roots: seq<Root>, visible: map<SetIndex, set<nat>>, sum: Summary)
    requires roots == [(0, 7), (0, 8), (1, 7), (2, 8)] && Complete(map[], visible, roots, sum)
    ensures !IsExact(map[], roots, sum)
  {
    var r, v, w := InterfaceValue(0, 0), InterfaceValue(1, 0), InterfaceValue(2, 0);
    assert roots[0] == (0, 7) && roots[1] == (0, 8) && roots[2] == (1, 7) && roots[3] == (2, 8);
    assert IsAt(map[], roots, v, 7) && IsAt(map[], roots, r, 7) && IsAt(map[], roots, r, 8) && IsAt(map[], roots, w, 8);
    assert Shares(map[], roots, (v, r)) && Shares(map[], roots, (r, w)) && !Shares(map[], roots, (v, w));
    SharingRelates(map[], visible, roots, sum, v, r, w);
  }

  lemma TheRoots()
    ensures ReturnRoots([Some(7), Some(8)]) + ParamRoots([Some(7), Some(8)]) == [(0, 7), (0, 8), (1, 7), (2, 8)]
  {
    var sets: seq<Option<SetIndex>> := [Some(7), Some(8)];
    assert sets[..1] == [Some(7)] && sets[..1][..0] == [];
    assert ReturnRoots(sets[..1]) == [(0, 7)] && ParamRoots(sets[..1]) == [(1, 7)];
  }

  lemma OneDeeper(below: Links, roots: seq<Root>, v: InterfaceValue, s: SetIndex)
    ensures IsAt(below, roots, Deeper(v), s) <==> exists t :: IsAt(below, roots, v, t) && t in below && below[t] == s
  {
  }

  // ---- going down from one root

  /** On the way down from a root: everything is kept except the link from the set above. */
  ghost predicate OnTheWay(below: Links, visible: map<SetIndex, set<nat>>, roots: seq<Root>, im: InterfaceMap,
                           sum: Summary, r: Root, level: nat, s: SetIndex, above: Option<SetIndex>) {
    && r in roots && Right(below, visible, roots, im, sum) && Below(below, r.1, level) == Some(s)
    && Kept(below, visible, im, sum, if above == None then {} else {above.value})
    && (above == None <==> level == 0)
    && (above.Some? ==>
          && above.value in im && im[above.value] == InterfaceValue(r.0, level - 1)
          && above.value in below && below[above.value] == s
          && RootKept(im, sum.relations, r))
  }

  /** Entries stay, and relations and attributes only become more. */
  ghost predicate Grows(im: InterfaceMap, sum: Summary, im': InterfaceMap, sum': Summary) {
    && (forall s :: s in im ==> s in im' && im'[s] == im[s])
    && sum.relations <= sum'.relations && sum.attributes <= sum'.attributes
  }

  lemma FewerLeft(universe: set<SetIndex>, im: InterfaceMap, sum: Summary, im': InterfaceMap, sum': Summary,
                  s: SetIndex)
    requires Grows(im, sum, im', sum') && s in universe && s !in im && s in im'
    ensures universe - im'.Keys < universe - im.Keys
  {
  }

  lemma GrowsTransitive(im: InterfaceMap, sum: Summary, im': InterfaceMap, sum': Summary, im'': InterfaceMap,
                        sum'': Summary)
    requires Grows(im, sum, im', sum') && Grows(im', sum', im'', sum'')
    ensures Grows(im, sum, im'', sum'')
  {
  }

  lemma LinkStaysKept(below: Links, im: InterfaceMap, sum: Summary, im': InterfaceMap, sum': Summary, s: SetIndex)
    requires LinkKept(below, im, sum.relations, s) && Grows(im, sum, im', sum') && s in im
    ensures LinkKept(below, im', sum'.relations, s)
  {
    if s in below {
      StillRelated(sum.relations, sum'.relations, Deeper(im[s]), im[below[s]]);
    }
  }

  lemma RootStaysKept(im: InterfaceMap, sum: Summary, im': InterfaceMap, sum': Summary, r: Root)
    requires RootKept(im, sum.relations, r) && Grows(im, sum, im', sum')
    ensures RootKept(im', sum'.relations, r)
  {
    StillRelated(sum.relations, sum'.relations, InterfaceValue(r.0, 0), im[r.1]);
  }

  /** The set has been seen before: a relation, unless it was seen as the very same value. */
  lemma FoundStep(below: Links, visible: map<SetIndex, set<nat>>, roots: seq<Root>, im: InterfaceMap, sum: Summary,
                  r: Root, level: nat, s: SetIndex, above: Option<SetIndex>, sum': Summary)
    requires OnTheWay(below, visible, roots, im, sum, r, level, s, above) && s in im
    requires sum' == if InterfaceValue(r.0, level) == im[s] then sum
                     else sum.(relations := sum.relations + [(InterfaceValue(r.0, level), im[s])])
    ensures Grows(im, sum, im, sum') && Right(below, visible, roots, im, sum')
    ensures Kept(below, visible, im, sum', {}) && RootKept(im, sum'.relations, r)
  {
    var curr := InterfaceValue(r.0, level);
    assert IsAt(below, roots, curr, s);
    if curr != im[s] {
      assert Shares(below, roots, (curr, im[s]));
      assert Derives(sum'.relations, Given(|sum.relations|), curr, im[s]);
    } else {
      RelatedSelf(sum'.relations, curr);
    }
    forall t
      ensures LinkKept(below, im, sum'.relations, t)
    {
      if t in im && Some(t) != above {
        LinkStaysKept(below, im, sum, im, sum', t);
      }
    }
    if level > 0 {
      RootStaysKept(im, sum, im, sum', r);
    }
  }

  /** A list of attributes, with what callers can see of a set under a value for it. */
  function WithAttributes(sum: Summary, visible: map<SetIndex, set<nat>>, s: SetIndex, v: InterfaceValue): Summary {
    if s in visible && visible[s] != {} then sum.(attributes := sum.attributes + [(v, visible[s])]) else sum
  }

  lemma StaysRight(below: Links, visible: map<SetIndex, set<nat>>, roots: seq<Root>, im: InterfaceMap, sum: Summary,
                   s: SetIndex, v: InterfaceValue)
    requires Right(below, visible, roots, im, sum) && IsAt(below, roots, v, s)
    ensures Right(below, visible, roots, im[s := v], WithAttributes(sum, visible, s, v))
  {
    forall a | a in WithAttributes(sum, visible, s, v).attributes
      ensures HasAttributes(below, visible, roots, a)
    {
    }
  }

  /** The set is new: it is entered, with what callers can see of it. */
  lemma NewStep(below: Links, visible: map<SetIndex, set<nat>>, roots: seq<Root>, im: InterfaceMap, sum: Summary,
                r: Root, level: nat, s: SetIndex, above: Option<SetIndex>, im': InterfaceMap, sum': Summary)
    requires OnTheWay(below, visible, roots, im, sum, r, level, s, above) && s !in im
    requires im' == im[s := InterfaceValue(r.0, level)]
    requires sum' == WithAttributes(sum, visible, s, InterfaceValue(r.0, level))
    ensures Grows(im, sum, im', sum') && Right(below, visible, roots, im', sum')
    ensures Kept(below, visible, im', sum', if s in below then {s} else {}) && RootKept(im', sum'.relations, r)
  {
    var curr := InterfaceValue(r.0, level);
    StaysRight(below, visible, roots, im, sum, s, curr);
    RelatedSelf(sum'.relations, curr);
    forall t | t != s || s !in below
      ensures LinkKept(below, im', sum'.relations, t)
    {
      if t in im && Some(t) != above {
        LinkStaysKept(below, im, sum, im', sum', t);
      }
    }
    forall t
      ensures AttributeKept(visible, im', sum'.attributes, t)
    {
      assert AttributeKept(visible, im, sum.attributes, t);
    }
    if level > 0 {
      RootStaysKept(im, sum, im', sum', r);
    }
  }

  ghost predicate AllRootsKept(im: InterfaceMap, rels: seq<Relation>, roots: seq<Root>) {
    forall r :: r in roots ==> RootKept(im, rels, r)
  }

  /** What holds between two roots. */
  ghost predicate Summed(below: Links, visible: map<SetIndex, set<nat>>, roots: seq<Root>, im: InterfaceMap,
                         sum: Summary) {
    && Right(below, visible, roots, im, sum) && Kept(below, visible, im, sum, {})
    && AllRootsKept(im, sum.relations, roots)
  }

  lemma MoreRootsRight(below: Links, visible: map<SetIndex, set<nat>>, roots: seq<Root>, im: InterfaceMap,
                       sum: Summary, r: Root)
    requires Right(below, visible, roots, im, sum)
    ensures Right(below, visible, roots + [r], im, sum)
  {
    forall v, s: SetIndex | IsAt(below, roots, v, s)
      ensures IsAt(below, roots + [r], v, s)
    {
      var x :| x in roots && x.0 == v.index && Below(below, x.1, v.level) == Some(s);
      assert x in roots + [r];
    }
    forall e | e in sum.relations
      ensures Shares(below, roots + [r], e)
    {
      assert Shares(below, roots, e);
    }
    forall a | a in sum.attributes
      ensures HasAttributes(below, visible, roots + [r], a)
    {
      assert HasAttributes(below, visible, roots, a);
    }
  }

  // ---- the same for those who only pass it on: it is not looked into unless one asks for Look

  datatype State = State(im: InterfaceMap, sum: Summary)

  predicate Look(st: State) {
    true
  }

  ghost predicate StillOnTheWay(below: Links, visible: map<SetIndex, set<nat>>, roots: seq<Root>, st: State,
                                r: Root, level: nat, s: SetIndex, above: Option<SetIndex>) {
    forall u {:trigger Look(u)} :: Look(u) && u == st ==>
      OnTheWay(below, visible, roots, u.im, u.sum, r, level, s, above)
  }

  ghost predicate StillSummed(below: Links, visible: map<SetIndex, set<nat>>, roots: seq<Root>, st: State) {
    forall u {:trigger Look(u)} :: Look(u) && u == st ==> Summed(below, visible, roots, u.im, u.sum)
  }

  /** The whole way down from r has been looked at. */
  ghost predicate Arrived(below: Links, visible: map<SetIndex, set<nat>>, roots: seq<Root>, st: State, r: Root) {
    forall u {:trigger Look(u)} :: Look(u) && u == st ==>
      Right(below, visible, roots, u.im, u.sum) && Kept(below, visible, u.im, u.sum, {})
        && RootKept(u.im, u.sum.relations, r)
  }

  ghost predicate StateGrows(st: State, st': State) {
    Grows(st.im, st.sum, st'.im, st'.sum)
  }

  lemma BeginWay(below: Links, visible: map<SetIndex, set<nat>>, roots: seq<Root>, st: State, r: Root)
    requires StillSummed(below, visible, roots, st)
    ensures StillOnTheWay(below, visible, roots + [r], st, r, 0, r.1, None)
  {
    assert Look(st);
    MoreRootsRight(below, visible, roots, st.im, st.sum, r);
  }

  lemma EndWay(below: Links, visible: map<SetIndex, set<nat>>, roots: seq<Root>, st: State, st': State, r: Root)
    requires StillSummed(below, visible, roots, st) && StateGrows(st, st')
    requires Arrived(below, visible, roots + [r], st', r)
    ensures StillSummed(below, visible, roots + [r], st')
  {
    assert Look(st) && Look(st');
    RootsStayKept(st.im, st.sum, st'.im, st'.sum, roots, r);
  }

  /** Return values and parameters that are in a set, with their indices. */
  function ReturnRoots(rets: seq<Option<SetIndex>>): seq<Root> {
    if rets == [] then []
    else
      var last := rets[|rets| - 1];
      ReturnRoots(rets[..|rets| - 1]) + if last.Some? then [(0, last.value)] else []
  }

  function ParamRoots(params: seq<Option<SetIndex>>): seq<Root> {
    if params == [] then []
    else
      var last := params[|params| - 1];
      ParamRoots(params[..|params| - 1]) + if last.Some? then [(|params|, last.value)] else []
  }

  lemma {:induction false} ReturnRootsAreReturns(rets: seq<Option<SetIndex>>)
    ensures forall r :: r in ReturnRoots(rets) <==> r.0 == 0 && Some(r.1) in rets
  {
    if rets != [] {
      assert rets == rets[..|rets| - 1] + [rets[|rets| - 1]];
      ReturnRootsAreReturns(rets[..|rets| - 1]);
    }
  }

  lemma {:induction false} ParamRootsAreParams(params: seq<Option<SetIndex>>)
    ensures forall r :: r in ParamRoots(params) <==> 0 < r.0 <= |params| && params[r.0 - 1] == Some(r.1)
    ensures OneRootEach(ParamRoots(params))
  {
    if params != [] {
      ParamRootsAreParams(params[..|params| - 1]);
    }
  }

  lemma OneRootForParameters(rets: seq<Option<SetIndex>>, params: seq<Option<SetIndex>>)
    ensures OneRootEach(ReturnRoots(rets) + ParamRoots(params))
  {
    ReturnRootsAreReturns(rets);
    ParamRootsAreParams(params);
  }

  class FunctionInfo {
    const below: Links
    const visible: map<SetIndex, set<nat>>
    var summary: Summary
    var interfaceMap: InterfaceMap

    ghost function Now(): State
      reads this
    {
      State(interfaceMap, summary)
    }

    /** Sums up a function.  Parameters that are no pointers are in no set.  With more than fifty
        parameters nothing is summed up; otherwise the summary lists only what is so, and what it
        lists implies all sharing; it implies no more than that exactly if the return values agree. */
    constructor (below: Links, visible: map<SetIndex, set<nat>>, rets: seq<Option<SetIndex>>,
                 params: seq<Option<SetIndex>>)
      ensures this.below == below && this.visible == visible
      ensures |params| > 50 ==> summary == Summary([], [])
      ensures |params| <= 50 ==>
                var roots := ReturnRoots(rets) + ParamRoots(params);
                && Complete(below, visible, roots, summary) && Right(below, visible, roots, interfaceMap, summary)
                && (IsExact(below, roots, summary) <==> ReturnsAgree(below, roots))
    {
      this.below, this.visible := below, visible;
      summary, interfaceMap := Summary([], []), map[];
      new;
      if |params| <= MAX_ARGS {
        AddReturns(rets);
        AddParams(rets, params);
        assert Look(Now());
        KeptIsComplete(below, visible, ReturnRoots(rets) + ParamRoots(params), interfaceMap, summary);
        OneRootForParameters(rets, params);
        ExactIffReturnsAgree(below, visible, ReturnRoots(rets) + ParamRoots(params), interfaceMap, summary);
      }
    }

    method AddReturns(rets: seq<Option<SetIndex>>)
      requires StillSummed(below, visible, [], Now())
      modifies this
      ensures StillSummed(below, visible, ReturnRoots(rets), Now())
    {
      for i := 0 to |rets|
        invariant StillSummed(below, visible, ReturnRoots(rets[..i]), Now())
      {
        if rets[i].Some? {
          AddToRetParamRelations(ReturnRoots(rets[..i]), (0, rets[i].value));
        }
        assert rets[..i + 1][..i] == rets[..i];
        assert ReturnRoots(rets[..i]) + [] == ReturnRoots(rets[..i]);
      }
      assert rets[..|rets|] == rets;
    }

    method AddParams(ghost rets: seq<Option<SetIndex>>, params: seq<Option<SetIndex>>)
      requires StillSummed(below, visible, ReturnRoots(rets), Now())
      modifies this
      ensures StillSummed(below, visible, ReturnRoots(rets) + ParamRoots(params), Now())
    {
      ghost var before := ReturnRoots(rets);
      assert before + [] == before;
      for i := 0 to |params|
        invariant StillSummed(below, visible, before + ParamRoots(params[..i]), Now())
      {
        ghost var roots := before + ParamRoots(params[..i]);
        assert params[..i + 1][..i] == params[..i];
        if params[i].Some? {
          AddToRetParamRelations(roots, (i + 1, params[i].value));
          assert before + ParamRoots(params[..i + 1]) == roots + [(i + 1, params[i].value)];
        } else {
          assert before + ParamRoots(params[..i + 1]) == roots;
        }
      }
      assert params[..|params|] == params;
    }

    /** Looks at one set on the way down; tells whether there is one below that has to be looked at. */
    method Visit(ghost roots: seq<Root>, r: Root, level: nat, s: SetIndex, ghost above: Option<SetIndex>)
      returns (goOn: bool)
      requires StillOnTheWay(below, visible, roots, Now(), r, level, s, above)
      modifies this
      ensures StateGrows(old(Now()), Now())
      ensures if goOn then s in below && s !in old(interfaceMap) && s in interfaceMap
                           && StillOnTheWay(below, visible, roots, Now(), r, level + 1, below[s], Some(s))
              else Arrived(below, visible, roots, Now(), r)
    {
      assert Look(Now());
      var curr := InterfaceValue(r.0, level);
      ghost var im, sum := interfaceMap, summary;
      if s in interfaceMap {
        if curr != interfaceMap[s] {
          summary := summary.(relations := summary.relations + [(curr, interfaceMap[s])]);
        }
        FoundStep(below, visible, roots, im, sum, r, level, s, above, summary);
        return false;
      }
      interfaceMap := interfaceMap[s := curr];
      if s in visible && visible[s] != {} {
        summary := summary.(attributes := summary.attributes + [(curr, visible[s])]);
      }
      NewStep(below, visible, roots, im, sum, r, level, s, above, interfaceMap, summary);
      goOn := s in below;
    }

    /** Goes down from a root until a set is reached that was seen before, or the lowest one. */
    method AddToRetParamRelations(ghost roots: seq<Root>, r: Root)
      requires StillSummed(below, visible, roots, Now())
      modifies this
      ensures StillSummed(below, visible, roots + [r], Now())
    {
      ghost var st0 := Now();
      ghost var all := roots + [r];
      BeginWay(below, visible, roots, st0, r);
      var level, s := 0, r.1;
      ghost var above: Option<SetIndex> := None;
      ghost var universe := below.Keys + below.Values + {r.1};
      while true
        invariant StillOnTheWay(below, visible, all, Now(), r, level, s, above)
        invariant StateGrows(st0, Now()) && s in universe
        decreases universe - interfaceMap.Keys
      {
        ghost var st := Now();
        var goOn := Visit(all, r, level, s, above);
        GrowsTransitive(st0.im, st0.sum, st.im, st.sum, interfaceMap, summary);
        if !goOn {
          break;
        }
        FewerLeft(universe, st.im, st.sum, interfaceMap, summary, s);
        above := Some(s);
        level := level + 1;
        s := below[s];
      }
      EndWay(below, visible, roots, st0, Now(), r);
    }
  }

  lemma RootsStayKept(im: InterfaceMap, sum: Summary, im': InterfaceMap, sum': Summary, roots: seq<Root>, r: Root)
    requires AllRootsKept(im, sum.relations, roots) && Grows(im, sum, im', sum') && RootKept(im', sum'.relations, r)
    ensures AllRootsKept(im', sum'.relations, roots + [r])
  {
    forall x | x in roots + [r]
      ensures RootKept(im', sum'.relations, x)
    {
      if x in roots {
        RootStaysKept(im, sum, im', sum', x);
      }
    }
  }
}
