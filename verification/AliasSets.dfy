/** What the alias sets of a tracker stand for: the connected components of the may-alias graph
    over the tracked pointers. */
module AliasSets {
  import opened Options

  /** A pointer value with the size and metadata it is always added with. */
  type Pointer = nat

  datatype AliasResult = NoAlias | MayAlias | PartialAlias | MustAlias

  type Oracle = (Pointer, Pointer) -> AliasResult

  datatype Access = Ref | Mod

  /** One alias set; a set that was merged into another forwards to it. */
  datatype SetView = SetView(forward: Option<nat>, must: bool, access: set<Access>, ptrs: seq<Pointer>)

  type View = seq<SetView>

  predicate May(o: Oracle, p: Pointer, q: Pointer) {
    o(p, q) != NoAlias
  }

  predicate Must(o: Oracle, p: Pointer, q: Pointer) {
    o(p, q) == MustAlias
  }

  /** Whether pointers may and must alias does not depend on the order of the question, and
      pointers that must alias answer alike.  A pointer need not alias itself. */
  ghost predicate Sensible(o: Oracle) {
    && (forall p, q :: May(o, p, q) == May(o, q, p) && Must(o, p, q) == Must(o, q, p))
    && (forall p, q, r :: Must(o, p, q) ==> May(o, p, r) == May(o, q, r) && Must(o, p, r) == Must(o, q, r))
  }

  // ---- components

  ghost predicate IsPath(o: Oracle, T: set<Pointer>, path: seq<Pointer>) {
    && path != []
    && (forall i :: 0 <= i < |path| ==> path[i] in T)
    && forall i :: 0 <= i < |path| - 1 ==> May(o, path[i], path[i + 1])
  }

  ghost predicate Joins(o: Oracle, T: set<Pointer>, path: seq<Pointer>, p: Pointer, q: Pointer) {
    IsPath(o, T, path) && path[0] == p && path[|path| - 1] == q
  }

  /** p and q lie in the same component of the may-alias graph over T. */
  ghost predicate Linked(o: Oracle, T: set<Pointer>, p: Pointer, q: Pointer) {
    exists path :: Joins(o, T, path, p, q)
  }

  lemma LinkedSelf(o: Oracle, T: set<Pointer>, p: Pointer)
    requires p in T
    ensures Linked(o, T, p, p)
  {
    assert Joins(o, T, [p], p, p);
  }

  lemma LinkedStep(o: Oracle, T: set<Pointer>, p: Pointer, q: Pointer)
    requires p in T && q in T && May(o, p, q)
    ensures Linked(o, T, p, q)
  {
    assert Joins(o, T, [p, q], p, q);
  }

  lemma LinkedTransitive(o: Oracle, T: set<Pointer>, p: Pointer, q: Pointer, r: Pointer)
    requires Linked(o, T, p, q) && Linked(o, T, q, r)
    ensures Linked(o, T, p, r)
  {
    var a :| Joins(o, T, a, p, q);
    var b :| Joins(o, T, b, q, r);
    var c := a + b[1..];
    assert forall i :: |a| - 1 <= i < |c| ==> c[i] == b[i - |a| + 1];
    assert Joins(o, T, c, p, r);
  }

  function Reverse(path: seq<Pointer>): (r: seq<Pointer>)
    ensures |r| == |path| && forall i :: 0 <= i < |path| ==> r[i] == path[|path| - 1 - i]
  {
    if path == [] then [] else Reverse(path[1..]) + [path[0]]
  }

  lemma LinkedSymmetric(o: Oracle, T: set<Pointer>, p: Pointer, q: Pointer)
    requires Sensible(o) && Linked(o, T, p, q)
    ensures Linked(o, T, q, p)
  {
    var a :| Joins(o, T, a, p, q);
    var b := Reverse(a);
    forall i | 0 <= i < |b| - 1
      ensures May(o, b[i], b[i + 1])
    {
      assert May(o, a[|a| - 2 - i], a[|a| - 2 - i + 1]);
    }
    assert Joins(o, T, b, q, p);
  }

  lemma LinkedGrows(o: Oracle, T: set<Pointer>, T': set<Pointer>, p: Pointer, q: Pointer)
    requires T <= T' && Linked(o, T, p, q)
    ensures Linked(o, T', p, q)
  {
    var a :| Joins(o, T, a, p, q);
    assert Joins(o, T', a, p, q);
  }

  // ---- a family of sets; home tells the set that each tracked pointer is in

  /** No two sets alias. */
  ghost predicate Separate(o: Oracle, home: map<Pointer, nat>) {
    forall p, q :: p in home && q in home && home[p] != home[q] ==> !May(o, p, q)
  }

  /** No set can be divided. */
  ghost predicate Connected(o: Oracle, home: map<Pointer, nat>) {
    forall p, q :: p in home && q in home && home[p] == home[q] ==> Linked(o, home.Keys, p, q)
  }

  lemma {:induction false} PathStaysHome(o: Oracle, home: map<Pointer, nat>, path: seq<Pointer>)
    requires Separate(o, home) && IsPath(o, home.Keys, path)
    ensures home[path[0]] == home[path[|path| - 1]]
  {
    if |path| > 1 {
      assert May(o, path[0], path[0 + 1]);
      forall i | 0 <= i < |path[1..]| - 1
        ensures May(o, path[1..][i], path[1..][i + 1])
      {
        assert May(o, path[i + 1], path[i + 1 + 1]);
      }
      PathStaysHome(o, home, path[1..]);
    }
  }

  /** Two tracked pointers are in the same set iff they are linked. */
  lemma HomesAreComponents(o: Oracle, home: map<Pointer, nat>, p: Pointer, q: Pointer)
    requires Separate(o, home) && Connected(o, home) && p in home && q in home
    ensures home[p] == home[q] <==> Linked(o, home.Keys, p, q)
  {
    if Linked(o, home.Keys, p, q) {
      var path :| Joins(o, home.Keys, path, p, q);
      PathStaysHome(o, home, path);
    }
  }

  /** Every pointer is in exactly one set, which forwards nowhere. */
  ghost predicate Partition(v: View, home: map<Pointer, nat>) {
    && (forall p :: p in home ==> home[p] < |v| && p in v[home[p]].ptrs)
    && (forall i, p :: 0 <= i < |v| && p in v[i].ptrs ==> p in home && home[p] == i)
    && (forall i :: 0 <= i < |v| && v[i].forward.Some? ==> v[i].ptrs == [])
    && (forall i, a, b :: 0 <= i < |v| && 0 <= a < b < |v[i].ptrs| ==> v[i].ptrs[a] != v[i].ptrs[b])
  }

  ghost predicate NoneEmpty(v: View) {
    forall i :: 0 <= i < |v| && v[i].forward == None ==> v[i].ptrs != []
  }

  /** The sets that forward nowhere. */
  ghost function Family(v: View): set<set<Pointer>> {
    set i | 0 <= i < |v| && v[i].forward == None :: Elements(v[i].ptrs)
  }

  function Elements(s: seq<Pointer>): set<Pointer> {
    set p | p in s
  }

  /** The connected components of the may-alias graph over T. */
  ghost function Components(o: Oracle, T: set<Pointer>): set<set<Pointer>> {
    set p | p in T :: Component(o, T, p)
  }

  ghost function Component(o: Oracle, T: set<Pointer>, p: Pointer): set<Pointer> {
    set q | q in T && Linked(o, T, p, q)
  }

  lemma HomeIsComponent(o: Oracle, v: View, home: map<Pointer, nat>, p: Pointer)
    requires Partition(v, home) && Separate(o, home) && Connected(o, home) && p in home
    ensures Elements(v[home[p]].ptrs) == Component(o, home.Keys, p)
  {
    forall q | q in home
      ensures q in v[home[p]].ptrs <==> Linked(o, home.Keys, p, q)
    {
      HomesAreComponents(o, home, p, q);
    }
  }

  /** The sets that forward nowhere are exactly the components, whatever the order in which the
      pointers came. */
  lemma FamilyIsComponents(o: Oracle, v: View, home: map<Pointer, nat>)
    requires Partition(v, home) && NoneEmpty(v) && Separate(o, home) && Connected(o, home)
    ensures Family(v) == Components(o, home.Keys)
  {
    forall s | s in Family(v)
      ensures s in Components(o, home.Keys)
    {
      var i :| 0 <= i < |v| && v[i].forward == None && s == Elements(v[i].ptrs);
      var p := v[i].ptrs[0];
      assert p in v[i].ptrs;
      HomeIsComponent(o, v, home, p);
    }
    forall p | p in home
      ensures Component(o, home.Keys, p) in Family(v)
    {
      HomeIsComponent(o, v, home, p);
      assert v[home[p]].forward == None;
    }
  }

  /** A set is a must set exactly when all its pointers must alias each other. */
  ghost predicate MustsRight(o: Oracle, v: View) {
    forall i :: 0 <= i < |v| && v[i].forward == None ==> (v[i].must <==> AllMust(o, v[i].ptrs))
  }

  ghost predicate AllMust(o: Oracle, ptrs: seq<Pointer>) {
    forall a, b :: 0 <= a < b < |ptrs| ==> Must(o, ptrs[a], ptrs[b])
  }

  /** A set has been accessed in the ways its pointers have. */
  ghost predicate AccessesRight(v: View, home: map<Pointer, nat>, acc: map<Pointer, set<Access>>) {
    forall i, k :: 0 <= i < |v| && v[i].forward == None ==> (k in v[i].access <==> Accessed(home, acc, i, k))
  }

  ghost predicate Accessed(home: map<Pointer, nat>, acc: map<Pointer, set<Access>>, i: nat, k: Access) {
    exists p :: p in home && home[p] == i && p in acc && k in acc[p]
  }

  /** The pointers in may sets. */
  function MaySize(v: View): nat {
    if v == [] then 0 else MaySize(v[..|v| - 1]) + Weight(v[|v| - 1])
  }

  function Weight(s: SetView): nat {
    if s.must then 0 else |s.ptrs|
  }

  lemma {:induction false} MaySizeUpdate(v: View, i: nat, s: SetView)
    requires i < |v|
    ensures MaySize(v[i := s]) == MaySize(v) - Weight(v[i]) + Weight(s)
  {
    var n := |v| - 1;
    if i < n {
      assert v[i := s][..n] == v[..n][i := s];
      MaySizeUpdate(v[..n], i, s);
    } else {
      assert v[i := s][..n] == v[..n];
    }
  }

  lemma MaySizeAppend(v: View, s: SetView)
    ensures MaySize(v + [s]) == MaySize(v) + Weight(s)
  {
  }

  // ---- a must set answers like its first pointer

  lemma FirstAnswersForAll(o: Oracle, ptrs: seq<Pointer>, p: Pointer)
    requires Sensible(o) && ptrs != [] && AllMust(o, ptrs)
    ensures May(o, ptrs[0], p) <==> exists q :: q in ptrs && May(o, q, p)
    ensures Must(o, ptrs[0], p) <==> AllMust(o, ptrs + [p])
  {
    forall b | 0 <= b < |ptrs|
      ensures May(o, ptrs[b], p) == May(o, ptrs[0], p) && Must(o, ptrs[b], p) == Must(o, ptrs[0], p)
    {
      assert b > 0 ==> Must(o, ptrs[0], ptrs[b]);
    }
    var all := ptrs + [p];
    assert all[0] == ptrs[0] && all[|ptrs|] == p;
    assert ptrs[0] in ptrs;
    if Must(o, ptrs[0], p) {
      forall a, b | 0 <= a < b < |all|
        ensures Must(o, all[a], all[b])
      {
        assert b < |ptrs| ==> Must(o, ptrs[a], ptrs[b]);
      }
    }
  }

  // ---- forwarding

  /** Sets forward to earlier ones, or to one that forwards nowhere. */
  ghost predicate ForwardOk(v: View, i: nat)
    requires i < |v|
  {
    v[i].forward.Some? ==>
      var j := v[i].forward.value;
      j < |v| && j != i && (j < i || v[j].forward == None)
  }

  ghost predicate ForwardsWell(v: View) {
    forall i {:trigger ForwardOk(v, i)} :: 0 <= i < |v| ==> ForwardOk(v, i)
  }

  /** Where forwarding leads. */
  ghost function Target(v: View, i: nat): (r: nat)
    requires ForwardsWell(v) && i < |v|
    ensures r < |v| && v[r].forward == None
    decreases Height(v, i)
  {
    assert ForwardOk(v, i);
    if v[i].forward == None then i else Target(v, v[i].forward.value)
  }

  ghost function Height(v: View, i: nat): nat
    requires i < |v|
  {
    if v[i].forward == None then 0 else i + 1
  }

  /** The sets keep their forwards, and new sets forward nowhere. */
  ghost predicate SameForwards(v: View, v': View) {
    && |v| <= |v'| && (forall i :: 0 <= i < |v| ==> v'[i].forward == v[i].forward)
    && forall i :: |v| <= i < |v'| ==> v'[i].forward == None
  }

  lemma SameForwardsWell(v: View, v': View)
    requires ForwardsWell(v) && SameForwards(v, v')
    ensures ForwardsWell(v')
  {
    forall i | 0 <= i < |v'|
      ensures ForwardOk(v', i)
    {
      assert i < |v| ==> ForwardOk(v, i);
    }
  }

  lemma {:induction false} SameForwardsTarget(v: View, v': View, k: nat)
    requires ForwardsWell(v) && ForwardsWell(v') && SameForwards(v, v') && k < |v|
    ensures Target(v', k) == Target(v, k)
    decreases Height(v, k)
  {
    assert ForwardOk(v, k);
    if v[k].forward.Some? {
      SameForwardsTarget(v, v', v[k].forward.value);
    }
  }

  /** Set c, which forwarded nowhere, now forwards to f. */
  ghost predicate Forwarded(v: View, f: nat, c: nat, v': View) {
    && f < |v| && c < |v| == |v'| && f != c && v[f].forward == v[c].forward == None && v'[c].forward == Some(f)
    && (forall i :: 0 <= i <= c ==> v[i].forward != Some(c))
    && forall i :: 0 <= i < |v| && i != c ==> v'[i].forward == v[i].forward
  }

  lemma ForwardedWell(v: View, f: nat, c: nat, v': View)
    requires ForwardsWell(v) && Forwarded(v, f, c, v')
    ensures ForwardsWell(v')
  {
    forall i | 0 <= i < |v'|
      ensures ForwardOk(v', i)
    {
      assert ForwardOk(v, i);
    }
  }

  /** A set that begins to forward takes along what forwarded to it. */
  lemma {:induction false} ForwardedTarget(v: View, f: nat, c: nat, v': View, k: nat)
    requires ForwardsWell(v) && ForwardsWell(v') && Forwarded(v, f, c, v') && k < |v|
    ensures Target(v', k) == if Target(v, k) == c then f else Target(v, k)
    decreases Height(v, k)
  {
    assert ForwardOk(v, k);
    if v[k].forward.Some? {
      ForwardedTarget(v, f, c, v', v[k].forward.value);
    }
  }

  // ---- merging two sets

  function Merged(v: View, f: nat, c: nat, must: bool): View
    requires f < |v| && c < |v|
  {
    v[f := SetView(None, must, v[f].access + v[c].access, v[f].ptrs + v[c].ptrs)]
     [c := v[c].(forward := Some(f), ptrs := [])]
  }

  ghost function Moved(home: map<Pointer, nat>, f: nat, c: nat): map<Pointer, nat> {
    map p | p in home :: if home[p] == c then f else home[p]
  }

  lemma MergedPartition(v: View, home: map<Pointer, nat>, f: nat, c: nat, must: bool)
    requires Partition(v, home) && f < |v| && c < |v| && f != c && v[c].ptrs != []
    ensures Partition(Merged(v, f, c, must), Moved(home, f, c))
  {
    var v', home' := Merged(v, f, c, must), Moved(home, f, c);
    forall i, p | 0 <= i < |v| && p in v'[i].ptrs
      ensures p in home' && home'[p] == i
    {
      assert i == f ==> p in v[f].ptrs || p in v[c].ptrs;
    }
    forall p | p in home'
      ensures p in v'[home'[p]].ptrs
    {
      assert p in v[home[p]].ptrs;
    }
    MergedDistinct(v, home, f, c);
  }

  lemma MergedDistinct(v: View, home: map<Pointer, nat>, f: nat, c: nat)
    requires Partition(v, home) && f < |v| && c < |v| && f != c
    ensures var ps := v[f].ptrs + v[c].ptrs; forall a, b :: 0 <= a < b < |ps| ==> ps[a] != ps[b]
  {
    var ps, n := v[f].ptrs + v[c].ptrs, |v[f].ptrs|;
    forall a, b | 0 <= a < b < |ps|
      ensures ps[a] != ps[b]
    {
      if b < n {
        assert ps[a] == v[f].ptrs[a] && ps[b] == v[f].ptrs[b];
      } else if a >= n {
        assert ps[a] == v[c].ptrs[a - n] && ps[b] == v[c].ptrs[b - n];
      } else {
        assert ps[a] in v[f].ptrs && ps[b] in v[c].ptrs;
        assert home[ps[a]] == f && home[ps[b]] == c;
      }
    }
  }

  lemma MergedMaySize(v: View, f: nat, c: nat, must: bool)
    requires f < |v| && c < |v| && f != c && (must ==> v[f].must && v[c].must)
    ensures MaySize(Merged(v, f, c, must))
         == MaySize(v) + Downgraded(v[f], v[c], must)
  {
    var v1 := v[f := SetView(None, must, v[f].access + v[c].access, v[f].ptrs + v[c].ptrs)];
    MaySizeUpdate(v, f, v1[f]);
    MaySizeUpdate(v1, c, v[c].(forward := Some(f), ptrs := []));
  }

  /** Two must sets that do not alias make a may set. */
  lemma MergedMusts(o: Oracle, v: View, home: map<Pointer, nat>, f: nat, c: nat, must: bool)
    requires Partition(v, home) && Separate(o, home) && MustsRight(o, v)
    requires f < |v| && c < |v| && f != c && v[f].ptrs != [] && v[c].ptrs != []
    requires must == (v[f].must && v[c].must && Must(o, v[f].ptrs[0], v[c].ptrs[0]))
    ensures !must && MustsRight(o, Merged(v, f, c, must))
  {
    var v', p, q := Merged(v, f, c, must), v[f].ptrs[0], v[c].ptrs[0];
    assert p in v[f].ptrs && q in v[c].ptrs;
    assert !May(o, p, q);
    assert v'[f].ptrs[0] == p && v'[f].ptrs[|v[f].ptrs|] == q;
  }

  lemma MergedAccesses(v: View, home: map<Pointer, nat>, acc: map<Pointer, set<Access>>, f: nat, c: nat, must: bool,
                       v': View, home': map<Pointer, nat>)
    requires f < |v| && c < |v| && f != c && v[f].forward == v[c].forward == None
    requires AccessesRight(v, home, acc) && v' == Merged(v, f, c, must) && home' == Moved(home, f, c)
    ensures AccessesRight(v', home', acc)
  {
  }

  // ---- the state of a tracker

  datatype Tracking = Tracking(v: View, home: map<Pointer, nat>, acc: map<Pointer, set<Access>>,
                               at: map<Pointer, nat>, total: nat)

  /** The record of each pointer leads to the set it is in. */
  ghost predicate Recorded(v: View, home: map<Pointer, nat>, at: map<Pointer, nat>) {
    && ForwardsWell(v) && at.Keys == home.Keys
    && forall p :: p in at ==> at[p] < |v| && Target(v, at[p]) == home[p]
  }

  /** What always holds. */
  ghost predicate Sound(t: Tracking) {
    && Partition(t.v, t.home) && Recorded(t.v, t.home, t.at)
    && t.acc.Keys == t.home.Keys
    && t.total == MaySize(t.v)
  }

  /** What holds as long as the tracker is not saturated. */
  ghost predicate Precise(o: Oracle, t: Tracking) {
    Sound(t) && Exact(o, t.v, t.home, t.acc)
  }

  ghost predicate Exact(o: Oracle, v: View, home: map<Pointer, nat>, acc: map<Pointer, set<Access>>) {
    && Descends(v) && NoneEmpty(v)
    && Separate(o, home) && MustsRight(o, v) && AccessesRight(v, home, acc)
  }

  ghost predicate Descends(v: View) {
    forall i :: 0 <= i < |v| && v[i].forward.Some? ==> v[i].forward.value < i
  }

  /** One set holds everything. */
  ghost predicate Saturated(t: Tracking, any: nat) {
    && Sound(t)
    && any < |t.v| && t.v[any].forward == None && !t.v[any].must && t.v[any].access == {Ref, Mod}
    && forall p :: p in t.home ==> t.home[p] == any
  }

  /** How much the pointers in may sets become more when two sets merge. */
  function Downgraded(f: SetView, c: SetView, must: bool): nat {
    if must then 0 else (if f.must then |f.ptrs| else 0) + (if c.must then |c.ptrs| else 0)
  }

  lemma MergeKeepsSound(t: Tracking, f: nat, c: nat, must: bool, t': Tracking)
    requires Sound(t) && f < |t.v| && c < |t.v| && f != c
    requires t.v[f].forward == t.v[c].forward == None && t.v[c].ptrs != [] && (must ==> t.v[f].must && t.v[c].must)
    requires forall i :: 0 <= i <= c ==> t.v[i].forward != Some(c)
    requires t' == Tracking(Merged(t.v, f, c, must), Moved(t.home, f, c), t.acc, t.at,
                            t.total + Downgraded(t.v[f], t.v[c], must))
    ensures Sound(t')
  {
    MergedPartition(t.v, t.home, f, c, must);
    MergedMaySize(t.v, f, c, must);
    MergedRecorded(t.v, t.home, t.at, f, c, t'.v, t'.home);
  }

  lemma MergedRecorded(v: View, home: map<Pointer, nat>, at: map<Pointer, nat>, f: nat, c: nat, v': View,
                       home': map<Pointer, nat>)
    requires Recorded(v, home, at) && Forwarded(v, f, c, v') && home' == Moved(home, f, c)
    ensures Recorded(v', home', at)
  {
    ForwardedWell(v, f, c, v');
    forall p | p in at
      ensures Target(v', at[p]) == home'[p]
    {
      ForwardedTarget(v, f, c, v', at[p]);
    }
  }

  ghost predicate MustTogether(o: Oracle, s: SetView, r: SetView) {
    s.must && r.must && s.ptrs != [] && r.ptrs != [] && Must(o, s.ptrs[0], r.ptrs[0])
  }

  ghost function MergeSets(o: Oracle, t: Tracking, f: nat, c: nat): Tracking
    requires f < |t.v| && c < |t.v|
  {
    var must := MustTogether(o, t.v[f], t.v[c]);
    Tracking(Merged(t.v, f, c, must), Moved(t.home, f, c), t.acc, t.at, t.total + Downgraded(t.v[f], t.v[c], must))
  }

  /** Merging loses no precision. */
  lemma MergeKeepsExact(o: Oracle, v: View, home: map<Pointer, nat>, acc: map<Pointer, set<Access>>, f: nat, c: nat,
                        must: bool, v': View, home': map<Pointer, nat>)
    requires Exact(o, v, home, acc) && Partition(v, home) && f < c < |v| && v[f].forward == v[c].forward == None
    requires must == MustTogether(o, v[f], v[c]) && v' == Merged(v, f, c, must) && home' == Moved(home, f, c)
    ensures Exact(o, v', home', acc)
  {
    MergedMusts(o, v, home, f, c, must);
    MergedAccesses(v, home, acc, f, c, must, v', home');
  }

  lemma MergeKeepsPrecise(o: Oracle, t: Tracking, f: nat, c: nat, t': Tracking)
    requires Precise(o, t) && f < c < |t.v| && t.v[f].forward == t.v[c].forward == None && t' == MergeSets(o, t, f, c)
    ensures Precise(o, t')
  {
    var must := MustTogether(o, t.v[f], t.v[c]);
    MergeKeepsExact(o, t.v, t.home, t.acc, f, c, must, t'.v, t'.home);
    MergeKeepsSound(t, f, c, must, t');
  }

  /** The sets are exact, or everything is in one set. */
  ghost predicate Good(o: Oracle, t: Tracking, any: Option<nat>) {
    match any
    case None => Precise(o, t) && Connected(o, t.home)
    case Some(a) => Saturated(t, a)
  }

  predicate Look(t: Tracking) {
    true
  }

  /** The same, for those who only pass it on: it is not looked into unless one asks for Look. */
  ghost predicate Kept(o: Oracle, t: Tracking, any: Option<nat>) {
    forall u {:trigger Look(u)} :: Look(u) && u == t ==> Good(o, u, any)
  }

  // ---- merging all sets that alias a new pointer

  /** Some set may alias p because of a pointer that m is linked to. */
  ghost predicate Reaches(o: Oracle, T: set<Pointer>, m: Pointer, p: Pointer) {
    exists q :: q in T && Linked(o, T, m, q) && May(o, q, p)
  }

  /** The first i sets have been looked at, and those that may alias p are now in set f. */
  ghost predicate Merging(o: Oracle, home: map<Pointer, nat>, p: Pointer, f: Option<nat>, i: nat) {
    && (forall q, r :: q in home && r in home && home[q] == home[r] && Some(home[q]) != f ==>
          Linked(o, home.Keys, q, r))
    && (forall q :: q in home && Some(home[q]) == f ==> Reaches(o, home.Keys, q, p))
    && (forall q :: q in home && home[q] < i && Some(home[q]) != f ==> !May(o, q, p))
    && (f.Some? ==> f.value < i)
  }

  /** Set c has a pointer that may alias p. */
  ghost predicate Touches(o: Oracle, home: map<Pointer, nat>, c: nat, p: Pointer) {
    exists q :: q in home && home[q] == c && May(o, q, p)
  }

  lemma MergingFound(o: Oracle, home: map<Pointer, nat>, p: Pointer, c: nat)
    requires Merging(o, home, p, None, c) && Touches(o, home, c, p)
    ensures Merging(o, home, p, Some(c), c + 1)
  {
  }

  lemma MergingMerge(o: Oracle, home: map<Pointer, nat>, p: Pointer, f: nat, c: nat, home': map<Pointer, nat>)
    requires Merging(o, home, p, Some(f), c) && Touches(o, home, c, p) && home' == Moved(home, f, c)
    ensures Merging(o, home', p, Some(f), c + 1)
  {
    assert home'.Keys == home.Keys;
    forall q | q in home' && home'[q] == f
      ensures Reaches(o, home'.Keys, q, p)
    {
      if home[q] == c {
        var m :| m in home && home[m] == c && May(o, m, p);
        assert Linked(o, home.Keys, q, m);
      }
    }
  }

  /** What a set is asked, and answers: a must set through its first pointer only. */
  ghost predicate Answers(o: Oracle, s: SetView, p: Pointer) {
    s.ptrs != [] && if s.must then May(o, s.ptrs[0], p) else exists q :: q in s.ptrs && May(o, q, p)
  }

  /** Set i is left alone, or is the set found, or is merged into it. */
  ghost function MergeOne(o: Oracle, t: Tracking, p: Pointer, f: Option<nat>, i: nat): (r: (Tracking, Option<nat>))
    requires i < |t.v| && (f.Some? ==> f.value < |t.v|)
  {
    if t.v[i].forward.Some? || !Answers(o, t.v[i], p) then (t, f)
    else if f == None then (t, Some(i))
    else (MergeSets(o, t, f.value, i), f)
  }

  ghost function MergeUpTo(o: Oracle, t: Tracking, p: Pointer, i: nat): (r: (Tracking, Option<nat>))
    requires i <= |t.v|
    ensures |r.0.v| == |t.v| && (r.1.Some? ==> r.1.value < i)
    ensures r.0.home.Keys == t.home.Keys && r.0.acc == t.acc && r.0.at == t.at
  {
    if i == 0 then (t, None)
    else
      var (t', f) := MergeUpTo(o, t, p, i - 1);
      MergeOne(o, t', p, f, i - 1)
  }

  /** A tracker in the middle of merging. */
  ghost predicate InMerge(o: Oracle, t: Tracking, p: Pointer, f: Option<nat>, i: nat) {
    && Precise(o, t) && Merging(o, t.home, p, f, i)
    && (f.Some? ==> f.value < |t.v| && t.v[f.value].forward == None)
  }

  lemma InMergeSkip(o: Oracle, t: Tracking, p: Pointer, f: Option<nat>, c: nat)
    requires InMerge(o, t, p, f, c) && !Touches(o, t.home, c, p)
    ensures InMerge(o, t, p, f, c + 1)
  {
  }

  lemma InMergeFound(o: Oracle, t: Tracking, p: Pointer, c: nat)
    requires InMerge(o, t, p, None, c) && c < |t.v| && t.v[c].forward == None && Touches(o, t.home, c, p)
    ensures InMerge(o, t, p, Some(c), c + 1)
  {
    MergingFound(o, t.home, p, c);
  }

  lemma InMergeMerge(o: Oracle, t: Tracking, p: Pointer, f: nat, c: nat, t': Tracking)
    requires InMerge(o, t, p, Some(f), c) && c < |t.v| && t.v[c].forward == None && Touches(o, t.home, c, p)
    requires t' == MergeSets(o, t, f, c)
    ensures InMerge(o, t', p, Some(f), c + 1)
  {
    MergeKeepsPrecise(o, t, f, c, t');
    MergingMerge(o, t.home, p, f, c, t'.home);
  }

  lemma MergeOneKeeps(o: Oracle, t: Tracking, p: Pointer, f: Option<nat>, i: nat, t': Tracking, f': Option<nat>)
    requires Sensible(o) && InMerge(o, t, p, f, i) && i < |t.v| && (t', f') == MergeOne(o, t, p, f, i)
    ensures InMerge(o, t', p, f', i + 1)
  {
    AnswersTouches(o, t.v, t.home, i, p);
    if t.v[i].forward.Some? || !Answers(o, t.v[i], p) {
      InMergeSkip(o, t, p, f, i);
    } else if f == None {
      InMergeFound(o, t, p, i);
    } else {
      InMergeMerge(o, t, p, f.value, i, t');
    }
  }

  lemma AnswersTouches(o: Oracle, v: View, home: map<Pointer, nat>, i: nat, p: Pointer)
    requires Sensible(o) && Partition(v, home) && MustsRight(o, v) && i < |v|
    ensures Touches(o, home, i, p) <==> v[i].forward == None && Answers(o, v[i], p)
  {
  }

  /** Like Kept, in the middle of merging. */
  ghost predicate KeptInMerge(o: Oracle, t: Tracking, p: Pointer, f: Option<nat>, i: nat) {
    forall u {:trigger Look(u)} :: Look(u) && u == t ==> InMerge(o, u, p, f, i)
  }

  lemma MergeOneKeepsKept(o: Oracle, t: Tracking, p: Pointer, f: Option<nat>, i: nat, r: (Tracking, Option<nat>))
    requires Sensible(o) && KeptInMerge(o, t, p, f, i) && i < |t.v| && (f.Some? ==> f.value < |t.v|)
    requires r == MergeOne(o, t, p, f, i)
    ensures KeptInMerge(o, r.0, p, r.1, i + 1)
  {
    assert Look(t);
    MergeOneKeeps(o, t, p, f, i, r.0, r.1);
  }

  lemma MergeUpToNext(o: Oracle, t: Tracking, p: Pointer, i: nat, r: (Tracking, Option<nat>),
                      r': (Tracking, Option<nat>))
    requires i < |t.v| && r == MergeUpTo(o, t, p, i) && r' == MergeUpTo(o, t, p, i + 1)
    ensures |r.0.v| == |t.v| && (r.1.Some? ==> r.1.value < |t.v|) && r' == MergeOne(o, r.0, p, r.1, i)
  {
  }

  predicate Turn(i: nat) {
    true
  }

  /** After the first i sets; this is not looked into unless one asks for that turn. */
  ghost predicate KeptAt(o: Oracle, t: Tracking, p: Pointer, i: nat) {
    forall k: nat {:trigger Turn(k)} :: Turn(k) && k == i && k <= |t.v| ==>
      var r := MergeUpTo(o, t, p, k); KeptInMerge(o, r.0, p, r.1, k)
  }

  lemma KeptAtStart(o: Oracle, t: Tracking, p: Pointer)
    requires KeptInMerge(o, t, p, None, 0)
    ensures KeptAt(o, t, p, 0)
  {
  }

  lemma KeptAtNext(o: Oracle, t: Tracking, p: Pointer, i: nat)
    requires Sensible(o) && i < |t.v| && KeptAt(o, t, p, i)
    ensures KeptAt(o, t, p, i + 1)
  {
    assert Turn(i);
    var r, r' := MergeUpTo(o, t, p, i), MergeUpTo(o, t, p, i + 1);
    MergeUpToNext(o, t, p, i, r, r');
    MergeOneKeepsKept(o, r.0, p, r.1, i, r');
  }

  lemma {:induction false} MergeUpToKeepsKept(o: Oracle, t: Tracking, p: Pointer, i: nat)
    requires Sensible(o) && KeptInMerge(o, t, p, None, 0) && i <= |t.v|
    ensures KeptAt(o, t, p, i)
  {
    if i == 0 {
      KeptAtStart(o, t, p);
    } else {
      MergeUpToKeepsKept(o, t, p, i - 1);
      KeptAtNext(o, t, p, i - 1);
    }
  }

  lemma KeptToMerge(o: Oracle, t: Tracking, p: Pointer)
    requires Kept(o, t, None)
    ensures KeptInMerge(o, t, p, None, 0)
  {
  }

  lemma MergeUpToKeeps(o: Oracle, t: Tracking, p: Pointer, i: nat, t': Tracking, f: Option<nat>)
    requires Sensible(o) && Kept(o, t, None) && i <= |t.v| && (t', f) == MergeUpTo(o, t, p, i)
    ensures InMerge(o, t', p, f, i)
  {
    KeptToMerge(o, t, p);
    MergeUpToKeepsKept(o, t, p, i);
    assert Turn(i) && Look(t');
  }

  /** What the merge loop relies on before each set. */
  ghost predicate Ready(t: Tracking, f: Option<nat>) {
    NoneEmpty(t.v) && (f.Some? ==> f.value < |t.v| && t.v[f.value].forward == None)
  }

  ghost predicate Mergeable(o: Oracle, t: Tracking, p: Pointer) {
    forall i :: 0 <= i <= |t.v| ==> var r := MergeUpTo(o, t, p, i); Ready(r.0, r.1)
  }

  lemma KeptIsMergeable(o: Oracle, t: Tracking, p: Pointer)
    requires Sensible(o) && Kept(o, t, None)
    ensures Mergeable(o, t, p)
  {
    forall i | 0 <= i <= |t.v|
      ensures var r := MergeUpTo(o, t, p, i); Ready(r.0, r.1)
    {
      var (t', f) := MergeUpTo(o, t, p, i);
      MergeUpToKeeps(o, t, p, i, t', f);
    }
  }

  // ---- adding a pointer

  lemma AddedSeparate(o: Oracle, home: map<Pointer, nat>, p: Pointer, f: nat, home': map<Pointer, nat>)
    requires Sensible(o) && p !in home && home' == home[p := f] && Separate(o, home)
    requires forall q :: q in home && home[q] != f ==> !May(o, q, p)
    ensures Separate(o, home')
  {
  }

  /** Everything in the set that p joins is linked through p. */
  lemma AddedConnected(o: Oracle, home: map<Pointer, nat>, p: Pointer, f: nat, home': map<Pointer, nat>)
    requires Sensible(o) && p !in home && home' == home[p := f]
    requires forall q, r :: q in home && r in home && home[q] == home[r] && home[q] != f ==> Linked(o, home.Keys, q, r)
    requires forall q :: q in home && home[q] == f ==> Reaches(o, home.Keys, q, p)
    ensures Connected(o, home')
  {
    var T, T' := home.Keys, home'.Keys;
    LinkedSelf(o, T', p);
    forall q | q in home && home[q] == f
      ensures Linked(o, T', q, p) && Linked(o, T', p, q)
    {
      var m :| m in T && Linked(o, T, q, m) && May(o, m, p);
      LinkedGrows(o, T, T', q, m);
      LinkedStep(o, T', m, p);
      LinkedTransitive(o, T', q, m, p);
      LinkedSymmetric(o, T', q, p);
    }
    forall q, r | q in home' && r in home' && home'[q] == home'[r]
      ensures Linked(o, T', q, r)
    {
      if home'[q] == f {
        LinkedTransitive(o, T', q, p, r);
      } else {
        LinkedGrows(o, T, T', q, r);
      }
    }
  }

  function WithPointer(v: View, f: nat, p: Pointer, must: bool): View
    requires f < |v|
  {
    v[f := v[f].(must := must, ptrs := v[f].ptrs + [p])]
  }

  lemma AddedPartition(v: View, home: map<Pointer, nat>, f: nat, p: Pointer, must: bool, v': View,
                       home': map<Pointer, nat>)
    requires Partition(v, home) && p !in home && f < |v| && v[f].forward == None
    requires v' == WithPointer(v, f, p, must) && home' == home[p := f]
    ensures Partition(v', home')
  {
    forall q | q in v[f].ptrs
      ensures q != p
    {
    }
    forall i, q | 0 <= i < |v'| && q in v'[i].ptrs
      ensures q in home' && home'[q] == i
    {
      assert q in v[i].ptrs || (i == f && q == p);
    }
    assert v'[f].ptrs[|v[f].ptrs|] == p;
    forall q | q in home'
      ensures q in v'[home'[q]].ptrs
    {
    }
    forall i, a, b | 0 <= i < |v'| && 0 <= a < b < |v'[i].ptrs|
      ensures v'[i].ptrs[a] != v'[i].ptrs[b]
    {
      assert v[i].ptrs[a] in v[i].ptrs;
    }
  }

  /** How much the pointers in may sets become more when one joins. */
  function Grown(s: SetView, must: bool): nat {
    if must then 0 else if s.must then |s.ptrs| + 1 else 1
  }

  ghost predicate StaysMust(o: Oracle, s: SetView, p: Pointer) {
    s.must && (s.ptrs == [] || Must(o, s.ptrs[0], p))
  }

  ghost function AddTo(o: Oracle, t: Tracking, f: nat, p: Pointer): Tracking
    requires f < |t.v|
  {
    var must := StaysMust(o, t.v[f], p);
    Tracking(WithPointer(t.v, f, p, must), t.home[p := f], t.acc[p := {}], t.at[p := f], t.total + Grown(t.v[f], must))
  }

  lemma AddKeepsRecords(o: Oracle, t: Tracking, f: nat, p: Pointer, t': Tracking)
    requires Sound(t) && p !in t.home && f < |t.v| && t.v[f].forward == None && t' == AddTo(o, t, f, p)
    ensures Recorded(t'.v, t'.home, t'.at) && t'.total == MaySize(t'.v)
  {
    MaySizeUpdate(t.v, f, t'.v[f]);
    SameForwardsRecorded(t.v, t.home, t.at, t'.v, p, f, t'.home, t'.at);
  }

  lemma AddKeepsSound(o: Oracle, t: Tracking, f: nat, p: Pointer, t': Tracking)
    requires Sound(t) && p !in t.home && f < |t.v| && t.v[f].forward == None && t' == AddTo(o, t, f, p)
    ensures Sound(t')
  {
    AddKeepsRecords(o, t, f, p, t');
    AddedPartition(t.v, t.home, f, p, StaysMust(o, t.v[f], p), t'.v, t'.home);
  }

  lemma SameForwardsRecorded(v: View, home: map<Pointer, nat>, at: map<Pointer, nat>, v': View, p: Pointer, f: nat,
                             home': map<Pointer, nat>, at': map<Pointer, nat>)
    requires Recorded(v, home, at) && SameForwards(v, v') && f < |v'| && v'[f].forward == None
    requires home' == home[p := f] && (at' == at[p := f] || (at' == at && p in home && home[p] == f))
    ensures Recorded(v', home', at')
  {
    SameForwardsWell(v, v');
    forall k | 0 <= k < |v|
      ensures Target(v', k) == Target(v, k)
    {
      SameForwardsTarget(v, v', k);
    }
  }

  /** The pointer joins a set: a must set only if it must alias the first pointer there. */
  lemma AddKeepsExact(o: Oracle, v: View, home: map<Pointer, nat>, acc: map<Pointer, set<Access>>, f: nat, p: Pointer,
                      must: bool, v': View, home': map<Pointer, nat>, acc': map<Pointer, set<Access>>)
    requires Sensible(o) && Exact(o, v, home, acc) && Partition(v, home) && p !in home && f < |v|
    requires v[f].forward == None
    requires forall q :: q in home && home[q] != f ==> !May(o, q, p)
    requires must == StaysMust(o, v[f], p) && v' == WithPointer(v, f, p, must) && home' == home[p := f]
    requires acc' == acc[p := {}]
    ensures Exact(o, v', home', acc')
  {
    AddedSeparate(o, home, p, f, home');
    AddedMusts(o, v, f, p, must, v');
    AddedAccesses(v, home, acc, p, f, v', home', acc');
  }

  lemma AddKeepsPrecise(o: Oracle, t: Tracking, f: nat, p: Pointer, t': Tracking)
    requires Sensible(o) && Precise(o, t) && p !in t.home && f < |t.v| && t.v[f].forward == None
    requires forall q :: q in t.home && t.home[q] != f ==> !May(o, q, p)
    requires t' == AddTo(o, t, f, p)
    ensures Precise(o, t')
  {
    AddKeepsExact(o, t.v, t.home, t.acc, f, p, StaysMust(o, t.v[f], p), t'.v, t'.home, t'.acc);
    AddKeepsSound(o, t, f, p, t');
  }

  lemma AddedMusts(o: Oracle, v: View, f: nat, p: Pointer, must: bool, v': View)
    requires Sensible(o) && MustsRight(o, v) && NoneEmpty(v) && f < |v| && v[f].forward == None
    requires must == (v[f].must && Must(o, v[f].ptrs[0], p)) && v' == WithPointer(v, f, p, must)
    ensures MustsRight(o, v')
  {
    if v[f].must {
      FirstAnswersForAll(o, v[f].ptrs, p);
    } else {
      assert forall a :: 0 <= a < |v[f].ptrs| ==> v'[f].ptrs[a] == v[f].ptrs[a];
    }
  }

  lemma AddedAccesses(v: View, home: map<Pointer, nat>, acc: map<Pointer, set<Access>>, p: Pointer, f: nat,
                      v': View, home': map<Pointer, nat>, acc': map<Pointer, set<Access>>)
    requires AccessesRight(v, home, acc) && p !in home && |v| <= |v'| && f < |v'|
    requires forall i :: 0 <= i < |v| ==> v'[i].forward == v[i].forward && v'[i].access == v[i].access
    requires forall i :: |v| <= i < |v'| ==> v'[i].access == {}
    requires home' == home[p := f] && acc' == acc[p := {}] && forall q :: q in home ==> home[q] < |v|
    ensures AccessesRight(v', home', acc')
  {
    forall i, k | 0 <= i < |v'| && v'[i].forward == None
      ensures k in v'[i].access <==> Accessed(home', acc', i, k)
    {
      if Accessed(home, acc, i, k) {
        var q :| q in home && home[q] == i && q in acc && k in acc[q];
        assert q in home' && home'[q] == i && q in acc' && k in acc'[q];
      }
    }
  }

  ghost function NewSet(t: Tracking): (t': Tracking)
    ensures |t'.v| == |t.v| + 1
  {
    t.(v := t.v + [SetView(None, true, {}, [])])
  }

  /** A set of its own for a pointer that aliases nothing. */
  lemma NewSetKeepsExact(o: Oracle, v: View, home: map<Pointer, nat>, acc: map<Pointer, set<Access>>, p: Pointer,
                         v': View, home': map<Pointer, nat>, acc': map<Pointer, set<Access>>)
    requires Sensible(o) && Exact(o, v, home, acc) && Partition(v, home) && p !in home
    requires forall q :: q in home ==> !May(o, q, p)
    requires v' == v + [SetView(None, true, {}, [p])] && home' == home[p := |v|] && acc' == acc[p := {}]
    ensures Exact(o, v', home', acc')
  {
    AddedSeparate(o, home, p, |v|, home');
    AddedAccesses(v, home, acc, p, |v|, v', home', acc');
  }

  lemma NewSetKeepsRecords(t: Tracking, p: Pointer, s: SetView, t': Tracking)
    requires Sound(t) && s == SetView(None, true, {}, [p])
    requires t' == Tracking(t.v + [s], t.home[p := |t.v|], t.acc[p := {}], t.at[p := |t.v|], t.total)
    ensures Recorded(t'.v, t'.home, t'.at) && t'.total == MaySize(t'.v)
  {
    MaySizeAppend(t.v, s);
    SameForwardsRecorded(t.v, t.home, t.at, t'.v, p, |t.v|, t'.home, t'.at);
  }

  lemma NewSetKeepsSound(t: Tracking, p: Pointer, s: SetView, t': Tracking)
    requires Sound(t) && p !in t.home && s == SetView(None, true, {}, [p])
    requires t' == Tracking(t.v + [s], t.home[p := |t.v|], t.acc[p := {}], t.at[p := |t.v|], t.total)
    ensures Sound(t')
  {
    NewSetKeepsRecords(t, p, s, t');
    NewSetPartition(t.v, t.home, p, t'.v, t'.home);
  }

  lemma NewSetKeepsPrecise(o: Oracle, t: Tracking, p: Pointer, t': Tracking)
    requires Sensible(o) && Precise(o, t) && p !in t.home && forall q :: q in t.home ==> !May(o, q, p)
    requires t' == AddTo(o, NewSet(t), |t.v|, p)
    ensures Precise(o, t')
  {
    var s := SetView(None, true, {}, [p]);
    assert t'.v == t.v + [s] by {
      assert [] + [p] == [p];
    }
    NewSetKeepsExact(o, t.v, t.home, t.acc, p, t'.v, t'.home, t'.acc);
    NewSetKeepsSound(t, p, s, t');
  }

  lemma NewSetPartition(v: View, home: map<Pointer, nat>, p: Pointer, v': View, home': map<Pointer, nat>)
    requires Partition(v, home) && p !in home
    requires v' == v + [SetView(None, true, {}, [p])] && home' == home[p := |v|]
    ensures Partition(v', home')
  {
  }

  /** A pointer that is not tracked yet: the sets that may alias it become one, and it joins them;
      returns the set it is in. */
  ghost function AddNew(o: Oracle, t: Tracking, p: Pointer): (r: (Tracking, nat))
    ensures r.0.home.Keys == t.home.Keys + {p} && r.0.acc == t.acc[p := {}] && r.1 < |r.0.v|
    ensures p in r.0.home && r.0.home[p] == r.1
  {
    var (t', f) := MergeUpTo(o, t, p, |t.v|);
    if f == None then (AddTo(o, NewSet(t'), |t.v|, p), |t.v|) else (AddTo(o, t', f.value, p), f.value)
  }

  lemma MergedAll(o: Oracle, t: Tracking, p: Pointer, t': Tracking, f: Option<nat>)
    requires Sensible(o) && Kept(o, t, None) && (t', f) == MergeUpTo(o, t, p, |t.v|)
    ensures Precise(o, t') && t'.home.Keys == t.home.Keys && Merging(o, t'.home, p, f, |t'.v|)
    ensures f.Some? ==> f.value < |t'.v| && t'.v[f.value].forward == None
    ensures forall q :: q in t'.home && Some(t'.home[q]) != f ==> !May(o, q, p)
  {
    MergeUpToKeeps(o, t, p, |t.v|, t', f);
  }

  /** Adding a pointer keeps the sets the connected components. */
  lemma AddNewKeeps(o: Oracle, t: Tracking, p: Pointer, t': Tracking, f: nat)
    requires Sensible(o) && Kept(o, t, None) && p !in t.home && (t', f) == AddNew(o, t, p)
    ensures Precise(o, t') && Connected(o, t'.home)
  {
    var (t1, found) := MergeUpTo(o, t, p, |t.v|);
    MergedAll(o, t, p, t1, found);
    AddedConnected(o, t1.home, p, f, t'.home);
    if found == None {
      NewSetKeepsPrecise(o, t1, p, t');
    } else {
      AddKeepsPrecise(o, t1, f, p, t');
    }
  }

  // ---- recording an access

  function WithAccess(v: View, f: nat, e: set<Access>): View
    requires f < |v|
  {
    v[f := v[f].(access := v[f].access + e)]
  }

  ghost function WithAccesses(acc: map<Pointer, set<Access>>, p: Pointer, e: set<Access>): map<Pointer, set<Access>> {
    acc[p := (if p in acc then acc[p] else {}) + e]
  }

  ghost function Accessing(t: Tracking, p: Pointer, e: set<Access>): Tracking
    requires p in t.home && t.home[p] < |t.v| && p in t.acc
  {
    t.(v := WithAccess(t.v, t.home[p], e), acc := t.acc[p := t.acc[p] + e])
  }

  lemma AccessKeepsRecords(t: Tracking, p: Pointer, e: set<Access>, t': Tracking)
    requires Sound(t) && p in t.home && t' == Accessing(t, p, e)
    ensures Recorded(t'.v, t'.home, t'.at) && t'.total == MaySize(t'.v)
  {
    var f := t.home[p];
    assert t.home[p := f] == t.home;
    SameForwardsRecorded(t.v, t.home, t.at, t'.v, p, f, t'.home, t'.at);
    MaySizeUpdate(t.v, f, t'.v[f]);
  }

  lemma AccessKeepsSound(t: Tracking, p: Pointer, e: set<Access>, t': Tracking)
    requires Sound(t) && p in t.home && t' == Accessing(t, p, e)
    ensures Sound(t')
  {
    AccessKeepsRecords(t, p, e, t');
    AccessedPartition(t.v, t.home, t.home[p], e, t'.v);
  }

  lemma AccessedPartition(v: View, home: map<Pointer, nat>, f: nat, e: set<Access>, v': View)
    requires Partition(v, home) && f < |v| && v' == WithAccess(v, f, e)
    ensures Partition(v', home)
  {
  }

  lemma AccessKeepsExact(o: Oracle, v: View, home: map<Pointer, nat>, acc: map<Pointer, set<Access>>, f: nat,
                         p: Pointer, e: set<Access>, v': View, acc': map<Pointer, set<Access>>)
    requires Exact(o, v, home, acc) && p in home && home[p] == f < |v| && p in acc
    requires v' == WithAccess(v, f, e) && acc' == acc[p := acc[p] + e]
    ensures Exact(o, v', home, acc')
  {
  }

  lemma AccessKeepsPrecise(o: Oracle, t: Tracking, f: nat, p: Pointer, e: set<Access>, t': Tracking)
    requires Precise(o, t) && p in t.home && t.home[p] == f && t' == Accessing(t, p, e)
    ensures Precise(o, t')
  {
    AccessKeepsExact(o, t.v, t.home, t.acc, f, p, e, t'.v, t'.acc);
    AccessKeepsSound(t, p, e, t');
  }

  // ---- saturation

  /** Merging a further set into the one that takes everything. */
  ghost predicate Saturating(t: Tracking, any: nat, i: nat) {
    && Sound(t) && i <= any < |t.v| && t.v[any].forward == None && !t.v[any].must && t.v[any].access == {Ref, Mod}
    && (forall k :: 0 <= k < any && t.v[k].forward == None ==> t.v[k].ptrs != [])
    && (forall k :: 0 <= k < any && t.v[k].forward.Some? ==> t.v[k].forward.value < k || t.v[k].forward.value == any)
    && (forall k :: 0 <= k < i ==> t.v[k].forward == Some(any))
    && |t.v| == any + 1
  }

  /** The same, not looked into unless one asks for Look. */
  ghost predicate StillSaturating(t: Tracking, any: nat, i: nat) {
    forall u {:trigger Look(u)} :: Look(u) && u == t ==> Saturating(u, any, i)
  }

  lemma EmptySetRecorded(v: View, home: map<Pointer, nat>, at: map<Pointer, nat>, v': View)
    requires Recorded(v, home, at) && SameForwards(v, v')
    ensures Recorded(v', home, at)
  {
    SameForwardsWell(v, v');
    forall p | p in at
      ensures Target(v', at[p]) == home[p]
    {
      SameForwardsTarget(v, v', at[p]);
    }
  }

  lemma NoFurtherAccess(e: set<Access>)
    ensures {Ref, Mod} + e == {Ref, Mod}
  {
    forall k | k in e
      ensures k in {Ref, Mod}
    {
      assert k == Ref || k == Mod;
    }
  }

  lemma EmptySetPartition(v: View, home: map<Pointer, nat>, s: SetView)
    requires Partition(v, home) && s.ptrs == []
    ensures Partition(v + [s], home)
  {
  }

  lemma EmptySetSound(t: Tracking, s: SetView, t': Tracking)
    requires Sound(t) && s.ptrs == [] && s.forward == None && t' == t.(v := t.v + [s])
    ensures Sound(t')
  {
    MaySizeAppend(t.v, s);
    EmptySetRecorded(t.v, t.home, t.at, t'.v);
    EmptySetPartition(t.v, t.home, s);
  }

  lemma SaturatingStart(o: Oracle, t: Tracking, t': Tracking)
    requires Precise(o, t) && t' == t.(v := t.v + [SetView(None, false, {Ref, Mod}, [])])
    ensures Saturating(t', |t.v|, 0)
  {
    EmptySetSound(t, SetView(None, false, {Ref, Mod}, []), t');
  }

  lemma SaturatingMerge(t: Tracking, any: nat, i: nat, t': Tracking)
    requires StillSaturating(t, any, i) && i < any < |t.v| && t.v[i].forward == None
    requires t' == Tracking(Merged(t.v, any, i, false), Moved(t.home, any, i), t.acc, t.at,
                            t.total + Downgraded(t.v[any], t.v[i], false))
    ensures StillSaturating(t', any, i + 1)
  {
    assert Look(t);
    MergeKeepsSound(t, any, i, false, t');
    NoFurtherAccess(t.v[i].access);
  }

  lemma SaturatingTarget(t: Tracking, any: nat, i: nat)
    requires Saturating(t, any, i) && i < any && t.v[i].forward.Some?
    ensures Target(t.v, i) == any
  {
    var j := t.v[i].forward.value;
    assert j != any ==> t.v[j].forward == Some(any);
    assert Target(t.v, j) == any;
  }

  lemma RedirectKeepsSound(t: Tracking, any: nat, i: nat, t': Tracking)
    requires Sound(t) && any < |t.v| && i < |t.v| && t.v[i].forward.Some? && Target(t.v, i) == any
    requires t' == t.(v := t.v[i := t.v[i].(forward := Some(any))])
    ensures Sound(t')
  {
    MaySizeUpdate(t.v, i, t'.v[i]);
    ShortenedRecorded(t.v, t.home, t.at, t'.v, t.at);
    ShortenedPartition(t.v, t.home, t'.v);
  }

  /** A set that already forwards is sent straight to the one that takes everything; the sets
      before it have been, so where it leads does not change. */
  lemma SaturatingRedirect(t: Tracking, any: nat, i: nat, t': Tracking)
    requires StillSaturating(t, any, i) && i < any < |t.v| && t.v[i].forward.Some?
    requires t' == t.(v := t.v[i := t.v[i].(forward := Some(any))])
    ensures StillSaturating(t', any, i + 1)
  {
    assert Look(t);
    SaturatingTarget(t, any, i);
    RedirectKeepsSound(t, any, i, t');
  }

  lemma SaturatingEnd(t: Tracking, any: nat)
    requires Saturating(t, any, any)
    ensures Saturated(t, any)
  {
  }

  lemma SaturatedAccess(t: Tracking, any: nat, p: Pointer, e: set<Access>, t': Tracking)
    requires Saturated(t, any) && p in t.home && t' == Accessing(t, p, e)
    ensures Saturated(t', any)
  {
    AccessKeepsSound(t, p, e, t');
    NoFurtherAccess(e);
  }

  lemma SaturatedAdd(o: Oracle, t: Tracking, any: nat, p: Pointer, t': Tracking)
    requires Saturated(t, any) && p !in t.home && t' == AddTo(o, t, any, p)
    ensures Saturated(t', any)
  {
    AddKeepsSound(o, t, any, p, t');
  }

  // ---- path compression

  /** Some sets now forward straight to where they led before. */
  ghost predicate Shortened(v: View, v': View)
    requires ForwardsWell(v)
  {
    && |v'| == |v|
    && forall i :: 0 <= i < |v| ==>
         v'[i] == v[i] || (v[i].forward.Some? && v'[i] == v[i].(forward := Some(Target(v, i))))
  }

  lemma ShortenedFurther(v: View, v': View, i: nat, v'': View)
    requires ForwardsWell(v) && Shortened(v, v') && i < |v| && v[i].forward.Some?
    requires v'' == v'[i := v'[i].(forward := Some(Target(v, i)))]
    ensures Shortened(v, v'')
  {
  }

  lemma ShortenedWell(v: View, v': View)
    requires ForwardsWell(v) && Shortened(v, v')
    ensures ForwardsWell(v')
  {
    forall i | 0 <= i < |v'|
      ensures ForwardOk(v', i)
    {
      assert ForwardOk(v, i);
    }
  }

  lemma {:induction false} ShortenedTarget(v: View, v': View, k: nat)
    requires ForwardsWell(v) && ForwardsWell(v') && Shortened(v, v') && k < |v|
    ensures Target(v', k) == Target(v, k)
    decreases Height(v, k)
  {
    assert ForwardOk(v, k);
    if v[k].forward.Some? {
      ShortenedTarget(v, v', v[k].forward.value);
    }
  }

  lemma {:induction false} TargetDescends(v: View, i: nat)
    requires ForwardsWell(v) && Descends(v) && i < |v|
    ensures Target(v, i) <= i && (v[i].forward.Some? ==> Target(v, i) < i)
    decreases Height(v, i)
  {
    assert ForwardOk(v, i);
    if v[i].forward.Some? {
      TargetDescends(v, v[i].forward.value);
    }
  }

  lemma ShortenedKeepsExact(o: Oracle, v: View, home: map<Pointer, nat>, acc: map<Pointer, set<Access>>, v': View)
    requires ForwardsWell(v) && Exact(o, v, home, acc) && Shortened(v, v')
    ensures Exact(o, v', home, acc)
  {
    forall i | 0 <= i < |v| && v'[i].forward.Some?
      ensures v'[i].forward.value < i
    {
      TargetDescends(v, i);
    }
  }

  lemma {:induction false} SameMaySize(v: View, v': View)
    requires |v'| == |v| && forall i :: 0 <= i < |v| ==> Weight(v'[i]) == Weight(v[i])
    ensures MaySize(v') == MaySize(v)
  {
    if v != [] {
      SameMaySize(v[..|v| - 1], v'[..|v| - 1]);
    }
  }

  lemma ShortenedMaySize(v: View, v': View)
    requires ForwardsWell(v) && Shortened(v, v')
    ensures MaySize(v') == MaySize(v)
  {
    SameMaySize(v, v');
  }

  lemma ShortenedPartition(v: View, home: map<Pointer, nat>, v': View)
    requires ForwardsWell(v) && Partition(v, home) && Shortened(v, v')
    ensures Partition(v', home)
  {
  }

  lemma ShortenedRecorded(v: View, home: map<Pointer, nat>, at: map<Pointer, nat>, v': View, at': map<Pointer, nat>)
    requires Recorded(v, home, at) && Shortened(v, v') && at'.Keys == at.Keys
    requires forall p :: p in at ==> at'[p] == at[p] || at'[p] == Target(v, at[p])
    ensures Recorded(v', home, at')
  {
    ShortenedWell(v, v');
    forall k | 0 <= k < |v|
      ensures Target(v', k) == Target(v, k)
    {
      ShortenedTarget(v, v', k);
    }
  }

  /** Looking up the set of a tracked pointer. */
  ghost predicate LookedUp(t: Tracking, p: Pointer, t': Tracking)
    requires ForwardsWell(t.v)
  {
    && p in t.at && t.at[p] < |t.v|
    && Shortened(t.v, t'.v) && t' == t.(v := t'.v, at := t.at[p := Target(t.v, t.at[p])])
  }

  lemma LookedUpKeepsRecords(t: Tracking, p: Pointer, t': Tracking)
    requires Recorded(t.v, t.home, t.at) && LookedUp(t, p, t')
    ensures Recorded(t'.v, t'.home, t'.at) && t'.at[p] == t.home[p]
  {
    ShortenedRecorded(t.v, t.home, t.at, t'.v, t'.at);
  }

  lemma LookedUpKeepsSound(t: Tracking, p: Pointer, t': Tracking)
    requires Sound(t) && LookedUp(t, p, t')
    ensures Sound(t')
  {
    LookedUpKeepsRecords(t, p, t');
    ShortenedPartition(t.v, t.home, t'.v);
    ShortenedMaySize(t.v, t'.v);
  }

  lemma LookedUpKeepsPrecise(o: Oracle, t: Tracking, p: Pointer, t': Tracking)
    requires Precise(o, t) && LookedUp(t, p, t')
    ensures Precise(o, t')
  {
    ShortenedKeepsExact(o, t.v, t.home, t.acc, t'.v);
    LookedUpKeepsSound(t, p, t');
  }

  // ---- one operation of the tracker, from outside

  /** What finding or making the set of a pointer relies on. */
  ghost predicate Usable(o: Oracle, t: Tracking, any: Option<nat>, p: Pointer) {
    && ForwardsWell(t.v)
    && (any.Some? ==> any.value < |t.v| && t.v[any.value].forward == None)
    && (any == None && p !in t.at ==> Mergeable(o, t, p))
  }

  lemma KeptIsUsable(o: Oracle, t: Tracking, any: Option<nat>, p: Pointer)
    requires Sensible(o) && Kept(o, t, any)
    ensures Usable(o, t, any, p)
  {
    assert Look(t);
    if any == None {
      KeptIsMergeable(o, t, p);
    }
  }

  /** What finding or making the set of a pointer does; f is the set. */
  ghost predicate Obtained(o: Oracle, t: Tracking, any: Option<nat>, p: Pointer, t': Tracking, f: nat)
    requires Usable(o, t, any, p)
  {
    if any.Some? then f == any.value && t' == if p in t.at then t else AddTo(o, t, f, p)
    else if p in t.at then LookedUp(t, p, t') && f == t'.at[p]
    else (t', f) == AddNew(o, t, p)
  }

  lemma ObtainedKeeps(o: Oracle, t: Tracking, any: Option<nat>, p: Pointer, t': Tracking, f: nat)
    requires Sensible(o) && Kept(o, t, any) && Usable(o, t, any, p) && Obtained(o, t, any, p, t', f)
    ensures Kept(o, t', any) && Placed(t, p, t', f)
  {
    assert Look(t);
    if any.Some? {
      ObtainedSaturated(o, t, any.value, p, t');
    } else if p in t.at {
      ObtainedKnown(o, t, p, t', f);
    } else {
      AddNewKeeps(o, t, p, t', f);
    }
  }

  /** The pointer is now tracked, in set f; the other pointers still are. */
  ghost predicate Placed(t: Tracking, p: Pointer, t': Tracking, f: nat) {
    && p in t'.home && t'.home[p] == f && t'.home.Keys == t.home.Keys + {p}
    && t'.acc == if p in t.acc then t.acc else t.acc[p := {}]
  }

  lemma PlacedKnown(t: Tracking, p: Pointer, t': Tracking, f: nat)
    requires p in t.home && t.home[p] == f && p in t.acc && t'.home == t.home && t'.acc == t.acc
    ensures Placed(t, p, t', f)
  {
  }

  lemma PlacedNew(t: Tracking, p: Pointer, t': Tracking, f: nat)
    requires p !in t.acc && t'.home == t.home[p := f] && t'.acc == t.acc[p := {}]
    ensures Placed(t, p, t', f)
  {
  }

  lemma ObtainedSaturated(o: Oracle, t: Tracking, any: nat, p: Pointer, t': Tracking)
    requires Saturated(t, any) && t' == if p in t.at then t else AddTo(o, t, any, p)
    ensures Saturated(t', any) && Placed(t, p, t', any)
  {
    if p in t.at {
      PlacedKnown(t, p, t', any);
    } else {
      SaturatedAdd(o, t, any, p, t');
      PlacedNew(t, p, t', any);
    }
  }

  lemma ObtainedKnown(o: Oracle, t: Tracking, p: Pointer, t': Tracking, f: nat)
    requires Precise(o, t) && LookedUp(t, p, t') && f == t'.at[p]
    ensures Precise(o, t') && Placed(t, p, t', f)
  {
    LookedUpKeepsPrecise(o, t, p, t');
    LookedUpKeepsRecords(t, p, t');
    PlacedKnown(t, p, t', f);
  }

  lemma AccessKeepsKept(o: Oracle, t: Tracking, any: Option<nat>, p: Pointer, e: set<Access>, t': Tracking)
    requires Kept(o, t, any) && p in t.home && p in t.acc && t.home[p] < |t.v| && t' == Accessing(t, p, e)
    ensures Kept(o, t', any)
  {
    assert Look(t);
    if any == None {
      AccessKeepsPrecise(o, t, t.home[p], p, e, t');
    } else {
      SaturatedAccess(t, any.value, p, e, t');
    }
  }

  lemma SaturatedIsKept(o: Oracle, t: Tracking, any: nat)
    requires StillSaturating(t, any, any)
    ensures Kept(o, t, Some(any)) && forall p :: p in t.home ==> t.home[p] == any
  {
    assert Look(t);
    SaturatingEnd(t, any);
  }

  lemma KeptToSaturating(o: Oracle, t: Tracking, t': Tracking)
    requires Kept(o, t, None) && t' == t.(v := t.v + [SetView(None, false, {Ref, Mod}, [])])
    ensures StillSaturating(t', |t.v|, 0)
  {
    assert Look(t);
    SaturatingStart(o, t, t');
  }

  /** The pointer is tracked with the new access, in set f. */
  ghost predicate Entered(t: Tracking, p: Pointer, e: set<Access>, t': Tracking) {
    p in t'.home && t'.home.Keys == t.home.Keys + {p} && t'.acc == WithAccesses(t.acc, p, e)
  }

  lemma PlacedThenAccessed(t: Tracking, p: Pointer, e: set<Access>, t1: Tracking, f: nat, t2: Tracking)
    requires Placed(t, p, t1, f) && t2.home == t1.home && p in t1.acc && t2.acc == t1.acc[p := t1.acc[p] + e]
    ensures Entered(t, p, e, t2)
  {
    if p !in t.acc {
      assert t1.acc[p := t1.acc[p] + e] == t.acc[p := {} + e];
    }
  }

  lemma KeptTracks(o: Oracle, t: Tracking, any: Option<nat>, p: Pointer)
    requires Kept(o, t, any) && p in t.home
    ensures p in t.acc && t.home[p] < |t.v|
  {
    assert Look(t);
  }

  // ---- what it all means

  /** Before saturation the sets that forward nowhere are the connected components of the pointers
      added; each is a must set iff its pointers all must alias each other, and has been accessed
      in exactly the ways its pointers have. */
  lemma ExactSets(o: Oracle, t: Tracking)
    requires Kept(o, t, None)
    ensures Family(t.v) == Components(o, t.home.Keys)
    ensures forall p, q :: p in t.home && q in t.home ==> (t.home[p] == t.home[q] <==> Linked(o, t.home.Keys, p, q))
    ensures MustsRight(o, t.v) && AccessesRight(t.v, t.home, t.acc)
  {
    assert Look(t);
    FamilyIsComponents(o, t.v, t.home);
    forall p, q | p in t.home && q in t.home
      ensures t.home[p] == t.home[q] <==> Linked(o, t.home.Keys, p, q)
    {
      HomesAreComponents(o, t.home, p, q);
    }
  }

  /** The order of the additions does not matter. */
  lemma OrderDoesNotMatter(o: Oracle, t: Tracking, t': Tracking)
    requires Kept(o, t, None) && Kept(o, t', None) && t.home.Keys == t'.home.Keys
    ensures Family(t.v) == Family(t'.v)
  {
    ExactSets(o, t);
    ExactSets(o, t');
  }

  /** After saturation one set holds every pointer and counts as accessed in every way. */
  lemma OneSet(o: Oracle, t: Tracking, any: nat)
    requires Kept(o, t, Some(any))
    ensures any < |t.v| && Elements(t.v[any].ptrs) == t.home.Keys
    ensures t.v[any].access == {Ref, Mod} && !t.v[any].must
    ensures forall i, p :: 0 <= i < |t.v| && p in t.v[i].ptrs ==> i == any
  {
    assert Look(t);
    forall i, p | 0 <= i < |t.v| && p in t.v[i].ptrs
      ensures i == any
    {
      assert t.home[p] == i;
    }
  }

  /** The pointers of a list of additions. */
  function Added(ps: seq<(Pointer, set<Access>)>): set<Pointer> {
    set i | 0 <= i < |ps| :: ps[i].0
  }

  /** And how each of them is accessed. */
  ghost function AccessesOf(ps: seq<(Pointer, set<Access>)>): map<Pointer, set<Access>> {
    if ps == [] then map[] else WithAccesses(AccessesOf(ps[..|ps| - 1]), ps[|ps| - 1].0, ps[|ps| - 1].1)
  }

  /** Exactly in the ways listed with it. */
  lemma {:induction false} AccessesAsListed(ps: seq<(Pointer, set<Access>)>, p: Pointer, x: Access)
    ensures p in AccessesOf(ps) <==> p in Added(ps)
    ensures p in AccessesOf(ps) && x in AccessesOf(ps)[p] <==> exists i :: 0 <= i < |ps| && ps[i].0 == p && x in ps[i].1
  {
    if ps != [] {
      var front, last := ps[..|ps| - 1], ps[|ps| - 1];
      assert ps == front + [last] && ps[|ps| - 1] == last;
      AddedOneMore(front, last);
      AccessesAsListed(front, p, x);
      if i :| 0 <= i < |front| && front[i].0 == p && x in front[i].1 {
        assert ps[i].0 == p;
      }
    }
  }

  lemma AddedOneMore(ps: seq<(Pointer, set<Access>)>, a: (Pointer, set<Access>))
    ensures Added(ps + [a]) == Added(ps) + {a.0}
  {
    forall p | p in Added(ps) + {a.0}
      ensures p in Added(ps + [a])
    {
      if p == a.0 {
        assert (ps + [a])[|ps|] == a;
      } else {
        var i :| 0 <= i < |ps| && ps[i].0 == p;
        assert (ps + [a])[i].0 == p;
      }
    }
  }
}
