/** How many pointers are in may sets, told from the tracked pointers alone. */
module AliasSaturation {
  import opened Options
  import opened AliasSets

  /** p is linked to two pointers that need not alias. */
  ghost predicate InMaySet(o: Oracle, T: set<Pointer>, p: Pointer) {
    exists q, r :: Linked(o, T, p, q) && Linked(o, T, p, r) && q != r && !Must(o, q, r)
  }

  ghost function MayPointers(o: Oracle, T: set<Pointer>): set<Pointer> {
    set p | p in T && InMaySet(o, T, p)
  }

  /** With more pointers tracked no pointer leaves. */
  lemma MayPointersGrow(o: Oracle, T: set<Pointer>, T': set<Pointer>)
    requires T <= T'
    ensures MayPointers(o, T) <= MayPointers(o, T') && |MayPointers(o, T)| <= |MayPointers(o, T')|
  {
    forall p | p in MayPointers(o, T)
      ensures p in MayPointers(o, T')
    {
      var q, r :| Linked(o, T, p, q) && Linked(o, T, p, r) && q != r && !Must(o, q, r);
      LinkedGrows(o, T, T', p, q);
      LinkedGrows(o, T, T', p, r);
    }
    SubsetIsSmaller(MayPointers(o, T), MayPointers(o, T'));
  }

  lemma SubsetIsSmaller(a: set<Pointer>, b: set<Pointer>)
    requires a <= b
    ensures |a| <= |b|
  {
    assert b == a + (b - a);
  }

  /** The pointers in may sets, as the sets list them. */
  function MayElements(v: View): set<Pointer> {
    if v == [] then {} else MayElements(v[..|v| - 1]) + if v[|v| - 1].must then {} else Elements(v[|v| - 1].ptrs)
  }

  lemma {:induction false} MayElementsListed(v: View, p: Pointer)
    ensures p in MayElements(v) <==> exists i :: 0 <= i < |v| && !v[i].must && p in v[i].ptrs
  {
    if v != [] {
      var n := |v| - 1;
      MayElementsListed(v[..n], p);
      if i :| 0 <= i < |v| && !v[i].must && p in v[i].ptrs {
        assert i < n ==> v[..n][i] == v[i];
      }
    }
  }

  /** No pointer is listed twice, in one set or in two. */
  predicate ListedOnce(v: View) {
    && (forall i, a, b :: 0 <= i < |v| && 0 <= a < b < |v[i].ptrs| ==> v[i].ptrs[a] != v[i].ptrs[b])
    && (forall i, j, p :: 0 <= i < j < |v| && p in v[i].ptrs ==> p !in v[j].ptrs)
  }

  lemma {:induction false} ElementsCount(s: seq<Pointer>)
    requires forall a, b :: 0 <= a < b < |s| ==> s[a] != s[b]
    ensures |Elements(s)| == |s|
  {
    if s != [] {
      var front, last := s[..|s| - 1], s[|s| - 1];
      ElementsCount(front);
      assert s == front + [last];
      assert Elements(s) == Elements(front) + {last};
    }
  }

  lemma {:induction false} MayElementsCount(v: View)
    requires ListedOnce(v)
    ensures |MayElements(v)| == MaySize(v)
  {
    if v != [] {
      var n := |v| - 1;
      var front, last := v[..n], if v[n].must then {} else Elements(v[n].ptrs);
      MayElementsCount(front);
      ElementsCount(v[n].ptrs);
      forall p | p in last
        ensures p !in MayElements(front)
      {
        MayElementsListed(front, p);
      }
      assert MayElements(front) !! last;
    }
  }

  lemma PartitionListsOnce(v: View, home: map<Pointer, nat>)
    requires Partition(v, home)
    ensures ListedOnce(v)
  {
    forall i, j, p | 0 <= i < j < |v| && p in v[i].ptrs
      ensures p !in v[j].ptrs
    {
      assert home[p] == i;
    }
  }

  /** A pointer is in a may set exactly if it is linked to two that need not alias. */
  lemma InMaySetIff(o: Oracle, v: View, home: map<Pointer, nat>, p: Pointer)
    requires Sensible(o) && Partition(v, home) && Separate(o, home) && Connected(o, home) && MustsRight(o, v)
    requires p in home
    ensures InMaySet(o, home.Keys, p) <==> !v[home[p]].must
  {
    var ptrs := v[home[p]].ptrs;
    HomeIsComponent(o, v, home, p);
    assert v[home[p]].must <==> AllMust(o, ptrs);
    LinkedWithin(o, home.Keys, p);
    if InMaySet(o, home.Keys, p) {
      var q, r :| Linked(o, home.Keys, p, q) && Linked(o, home.Keys, p, r) && q != r && !Must(o, q, r);
      assert q in Elements(ptrs) && r in Elements(ptrs);
      if AllMust(o, ptrs) {
        AllMustAnyTwo(o, ptrs, q, r);
      }
    } else {
      forall a, b | 0 <= a < b < |ptrs|
        ensures Must(o, ptrs[a], ptrs[b])
      {
        assert ptrs[a] in Elements(ptrs) && ptrs[b] in Elements(ptrs);
      }
    }
  }

  lemma LinkedWithin(o: Oracle, T: set<Pointer>, p: Pointer)
    ensures forall q :: Linked(o, T, p, q) ==> q in T
  {
    forall q | Linked(o, T, p, q)
      ensures q in T
    {
      var path :| Joins(o, T, path, p, q);
      assert path[|path| - 1] in T;
    }
  }

  lemma AllMustAnyTwo(o: Oracle, ptrs: seq<Pointer>, q: Pointer, r: Pointer)
    requires Sensible(o) && AllMust(o, ptrs) && q in ptrs && r in ptrs && q != r
    ensures Must(o, q, r)
  {
    var a :| 0 <= a < |ptrs| && ptrs[a] == q;
    var b :| 0 <= b < |ptrs| && ptrs[b] == r;
    assert if a < b then Must(o, ptrs[a], ptrs[b]) else Must(o, ptrs[b], ptrs[a]);
  }

  lemma MayElementsAreMayPointers(o: Oracle, v: View, home: map<Pointer, nat>)
    requires Sensible(o) && Partition(v, home) && Separate(o, home) && Connected(o, home) && MustsRight(o, v)
    ensures MayElements(v) == MayPointers(o, home.Keys)
  {
    forall p
      ensures p in MayElements(v) <==> p in MayPointers(o, home.Keys)
    {
      MayElementsListed(v, p);
      if p in home {
        InMaySetIff(o, v, home, p);
      }
    }
  }

  /** As long as the tracker is not saturated, its count of pointers in may sets is the number of
      pointers that are linked to two that need not alias. */
  lemma TotalIsMayPointers(o: Oracle, t: Tracking)
    requires Sensible(o) && Kept(o, t, None)
    ensures t.total == |MayPointers(o, t.home.Keys)|
  {
    assert Look(t);
    PartitionListsOnce(t.v, t.home);
    MayElementsCount(t.v);
    MayElementsAreMayPointers(o, t.v, t.home);
  }

  /** Alone in its set, or among pointers that all must alias, no pointer counts; so a tracker of
      few pointers has few in may sets. */
  lemma MayPointersAreTracked(o: Oracle, T: set<Pointer>)
    ensures |MayPointers(o, T)| <= |T|
  {
    SubsetIsSmaller(MayPointers(o, T), T);
  }
}
