/** The alias set tracker: sets are merged in place as pointers that alias several of them arrive. */
module AliasSetTrackers {
  import opened Options
  import opened AliasSets
  import opened AliasSaturation

  const SATURATION_THRESHOLD: nat := 250

  class AliasSet {
    /** The position in the tracker's list. */
    ghost const index: nat
    var Forward: AliasSet?
    var IsMust: bool
    var Accesses: set<Access>
    var PtrList: seq<Pointer>
    var AliasAny: bool

    constructor (ghost index: nat)
      ensures this.index == index && View() == SetView(None, true, {}, []) && Forward == null && !AliasAny
    {
      this.index := index;
      Forward, IsMust, Accesses, PtrList, AliasAny := null, true, {}, [], false;
    }

    ghost function View(): SetView
      reads this
    {
      SetView(if Forward == null then None else Some(Forward.index), IsMust, Accesses, PtrList)
    }

    /** Merges another set into this one; returns by how much may sets grow. */
    method MergeSetIn(AS: AliasSet, alias: Oracle) returns (downgraded: nat)
      requires this != AS && Forward == null && AS.Forward == null
      requires IsMust && AS.IsMust ==> PtrList != [] && AS.PtrList != []
      modifies this, AS
      ensures var must := old(IsMust) && old(AS.IsMust) && Must(alias, old(PtrList)[0], old(AS.PtrList)[0]);
              && View() == SetView(None, must, old(Accesses) + old(AS.Accesses), old(PtrList) + old(AS.PtrList))
              && downgraded == Downgraded(old(View()), old(AS.View()), must)
      ensures AS.View() == old(AS.View()).(forward := Some(index), ptrs := [])
      ensures Forward == null && AS.Forward == this && AliasAny == old(AliasAny) && AS.AliasAny == old(AS.AliasAny)
    {
      var wasMust := IsMust;
      Accesses := Accesses + AS.Accesses;
      IsMust := IsMust && AS.IsMust;
      if IsMust {
        // Both were must sets, so one pointer of each tells.
        var L, R := PtrList[0], AS.PtrList[0];
        if alias(L, R) != MustAlias {
          IsMust := false;
        }
      }
      downgraded := 0;
      if !IsMust {
        if wasMust {
          downgraded := downgraded + |PtrList|;
        }
        if AS.IsMust {
          downgraded := downgraded + |AS.PtrList|;
        }
      }
      AS.Forward := this;
      PtrList := PtrList + AS.PtrList;
      AS.PtrList := [];
    }

    /** Whether p may alias a pointer of this set.  A must set is asked through its first pointer. */
    method AliasesPointer(p: Pointer, alias: Oracle) returns (b: bool)
      requires Sensible(alias) && (IsMust ==> PtrList != [])
      ensures b <==> AliasAny || Answers(alias, View(), p)
    {
      if AliasAny {
        return true;
      }
      if IsMust {
        return alias(PtrList[0], p) != NoAlias;
      }
      for i := 0 to |PtrList|
        invariant forall k :: 0 <= k < i ==> !May(alias, PtrList[k], p)
      {
        if alias(p, PtrList[i]) != NoAlias {
          assert May(alias, PtrList[i], p) && PtrList[i] in PtrList;
          return true;
        }
      }
      return false;
    }

    /** Appends a pointer; a must set whose first pointer it need not alias becomes a may set. */
    method AddPointer(p: Pointer, alias: Oracle) returns (downgraded: nat)
      requires Forward == null
      modifies this
      ensures Forward == null && AliasAny == old(AliasAny)
      ensures var must := old(IsMust) && (old(PtrList) == [] || Must(alias, old(PtrList)[0], p));
              && View() == old(View()).(must := must, ptrs := old(PtrList) + [p])
              && downgraded == if must then 0 else if old(IsMust) then |old(PtrList)| + 1 else 1
    {
      downgraded := 0;
      if IsMust && PtrList != [] {
        var result := alias(PtrList[0], p);
        if result != MustAlias {
          IsMust := false;
          downgraded := |PtrList|;
        }
      }
      PtrList := PtrList + [p];
      if !IsMust {
        downgraded := downgraded + 1;
      }
    }
  }

  class AliasSetTracker {
    const alias: Oracle
    var sets: seq<AliasSet>
    var pointerMap: map<Pointer, AliasSet>
    var totalMayAliasSetSize: nat
    var aliasAnyAS: AliasSet?

    /** What the fields stand for, and the sets that exist. */
    ghost var t: Tracking
    ghost var Repr: set<AliasSet>

    /** The list, the records and the forwarding stay within the tracker, and t tells what they hold. */
    ghost predicate Reflects()
      reads this, Repr
    {
      && |t.v| == |sets| && (forall i :: 0 <= i < |sets| ==> sets[i] in Repr)
      && (forall i {:trigger t.v[i]} :: 0 <= i < |sets| ==> Mirrors(sets[i], i, t.v[i]))
      && (forall p :: p in pointerMap ==> Listed(pointerMap[p]))
      && t.at == Indices(pointerMap)
      && t.total == totalMayAliasSetSize
    }

    ghost predicate Mirrors(s: AliasSet, i: nat, x: SetView)
      reads this, s
    {
      && s.index == i && s.View() == x
      && (s.Forward != null ==> Listed(s.Forward))
      && (s.AliasAny <==> s == aliasAnyAS)
    }

    ghost predicate Listed(s: AliasSet)
      reads this
    {
      s.index < |sets| && sets[s.index] == s
    }

    static ghost function Indices(m: map<Pointer, AliasSet>): map<Pointer, nat> {
      map p | p in m :: m[p].index
    }

    /** The fields fit together, and the sets are exact or saturated. */
    ghost predicate Coherent()
      reads this, Repr
    {
      Sensible(alias) && Reflects() && Kept(alias, t, Found(aliasAnyAS)) && (aliasAnyAS != null ==> Listed(aliasAnyAS))
    }

    /** Between two additions the tracker is saturated exactly if too many pointers are linked to
        two that need not alias. */
    ghost predicate Valid()
      reads this, Repr
    {
      Coherent() && (aliasAnyAS != null <==> TooMany(alias, t.home.Keys))
    }

    static ghost predicate TooMany(alias: Oracle, T: set<Pointer>) {
      |MayPointers(alias, T)| > 250
    }

    constructor (alias: Oracle)
      requires Sensible(alias)
      ensures Valid() && this.alias == alias && Repr == {}
      ensures pointerMap == map[] && aliasAnyAS == null && t.home == map[] && t.acc == map[]
    {
      this.alias := alias;
      sets, pointerMap, totalMayAliasSetSize, aliasAnyAS := [], map[], 0, null;
      t, Repr := Tracking([], map[], map[], map[], 0), {};
    }

    /** The set found so far, as its position. */
    ghost function Found(s: AliasSet?): Option<nat> {
      if s == null then None else Some(s.index)
    }

    /** Merges all sets that may alias a new pointer into the first of them. */
    method MergeAliasSetsForPointer(p: Pointer) returns (foundSet: AliasSet?)
      requires Sensible(alias) && Reflects() && aliasAnyAS == null && Mergeable(alias, t, p)
      modifies this`t, this`totalMayAliasSetSize, Repr
      ensures Reflects() && (t, Found(foundSet)) == MergeUpTo(alias, old(t), p, |sets|)
      ensures foundSet != null ==> Listed(foundSet)
    {
      ghost var t0 := t;
      foundSet := null;
      for i := 0 to |sets|
        invariant |sets| == |t0.v| && Reflects()
        invariant (t, Found(foundSet)) == MergeUpTo(alias, t0, p, i)
        invariant foundSet != null ==> Listed(foundSet) && foundSet.index < i
      {
        foundSet := MergeIfAliasing(p, foundSet, i);
      }
    }

    /** One set: left alone, or taken as the set found, or merged into it. */
    method MergeIfAliasing(p: Pointer, found: AliasSet?, i: nat) returns (foundSet: AliasSet?)
      requires Sensible(alias) && Reflects() && aliasAnyAS == null && i < |sets| && Ready(t, Found(found))
      requires found != null ==> Listed(found) && found.index < i
      modifies this`t, this`totalMayAliasSetSize, Repr
      ensures Reflects() && (t, Found(foundSet)) == MergeOne(alias, old(t), p, Found(found), i)
      ensures foundSet != null ==> Listed(foundSet)
    {
      var cur := sets[i];
      assert Mirrors(cur, i, t.v[i]);
      foundSet := found;
      var aliases := false;
      if cur.Forward == null {
        aliases := cur.AliasesPointer(p, alias);
      }
      if aliases {
        if found == null {
          foundSet := cur;
        } else {
          MergeSetInto(found, cur);
        }
      }
    }

    /** Merges two sets of the list and takes account of it. */
    method MergeSetInto(found: AliasSet, cur: AliasSet)
      requires Reflects() && Listed(found) && Listed(cur) && found != cur
      requires t.v[found.index].forward == t.v[cur.index].forward == None
      requires t.v[found.index].ptrs != [] || !t.v[found.index].must
      requires t.v[cur.index].ptrs != []
      modifies this`t, this`totalMayAliasSetSize, found, cur
      ensures Reflects() && t == MergeSets(alias, old(t), found.index, cur.index)
    {
      ghost var f, c := found.index, cur.index;
      assert Mirrors(found, f, t.v[f]) && Mirrors(cur, c, t.v[c]);
      var downgraded := found.MergeSetIn(cur, alias);
      totalMayAliasSetSize := totalMayAliasSetSize + downgraded;
      t := MergeSets(alias, t, f, c);
    }

    /** Where a set forwards to; the sets on the way then forward there directly. */
    method GetForwardedTarget(s: AliasSet) returns (dest: AliasSet)
      requires Reflects() && ForwardsWell(t.v) && Listed(s)
      modifies this`t, Repr
      ensures Reflects() && Listed(dest) && dest.index == Target(old(t).v, s.index)
      ensures Shortened(old(t).v, t.v) && t == old(t).(v := t.v)
      decreases Height(t.v, s.index)
    {
      ghost var t0 := t;
      assert Mirrors(s, s.index, t.v[s.index]);
      if s.Forward == null {
        return s;
      }
      assert ForwardOk(t.v, s.index);
      dest := GetForwardedTarget(s.Forward);
      ghost var t1 := t;
      SetForward(s, dest);
      ShortenedFurther(t0.v, t1.v, s.index, t.v);
    }

    method SetForward(s: AliasSet, dest: AliasSet)
      requires Reflects() && Listed(s) && Listed(dest)
      modifies this`t, s`Forward
      ensures Reflects()
      ensures t == old(t).(v := old(t).v[s.index := old(t).v[s.index].(forward := Some(dest.index))])
    {
      assert Mirrors(s, s.index, t.v[s.index]);
      s.Forward := dest;
      t := t.(v := t.v[s.index := t.v[s.index].(forward := Some(dest.index))]);
    }

    /** The set of a tracked pointer, whose record is brought up to date. */
    method GetAliasSet(p: Pointer) returns (AS: AliasSet)
      requires Reflects() && ForwardsWell(t.v) && p in pointerMap
      modifies this`t, this`pointerMap, Repr
      ensures Reflects() && LookedUp(old(t), p, t)
      ensures Listed(AS) && AS.index == t.at[p] && pointerMap.Keys == old(pointerMap).Keys
    {
      AS := GetForwardedTarget(pointerMap[p]);
      SetRecord(p, AS);
    }

    method SetRecord(p: Pointer, AS: AliasSet)
      requires Reflects() && Listed(AS)
      modifies this`t, this`pointerMap
      ensures Reflects() && pointerMap == old(pointerMap)[p := AS] && t == old(t).(at := old(t).at[p := AS.index])
    {
      pointerMap := pointerMap[p := AS];
      t := t.(at := t.at[p := AS.index]);
    }

    /** Appends an empty set to the list. */
    method NewAliasSet() returns (AS: AliasSet)
      requires Reflects()
      modifies this`sets, this`t, this`Repr
      ensures Reflects() && fresh(AS) && Repr == old(Repr) + {AS} && sets == old(sets) + [AS] && AS.index == |old(sets)|
      ensures t == NewSet(old(t))
    {
      AS := new AliasSet(|sets|);
      sets, Repr := sets + [AS], Repr + {AS};
      t := NewSet(t);
    }

    /** Adds a pointer that is in no set to the given set. */
    method AddToSet(AS: AliasSet, p: Pointer)
      requires Reflects() && Listed(AS) && t.v[AS.index].forward == None
      modifies this`t, this`totalMayAliasSetSize, this`pointerMap, AS
      ensures Reflects() && t == AddTo(alias, old(t), AS.index, p) && pointerMap == old(pointerMap)[p := AS]
    {
      AppendTo(AS, p);
      SetRecord(p, AS);
    }

    method AppendTo(AS: AliasSet, p: Pointer)
      requires Reflects() && Listed(AS) && t.v[AS.index].forward == None
      modifies this`t, this`totalMayAliasSetSize, AS
      ensures Reflects() && t == AddTo(alias, old(t), AS.index, p).(at := old(t).at)
    {
      ghost var f := AS.index;
      assert Mirrors(AS, f, t.v[f]);
      var grown := AS.AddPointer(p, alias);
      totalMayAliasSetSize := totalMayAliasSetSize + grown;
      t := AddTo(alias, t, f, p).(at := t.at);
    }

    /** A pointer that is not tracked yet: merges the sets that may alias it, and adds it. */
    method AddNewPointer(p: Pointer) returns (AS: AliasSet)
      requires Sensible(alias) && Reflects() && aliasAnyAS == null && Mergeable(alias, t, p)
      modifies this, Repr
      ensures Reflects() && aliasAnyAS == null && Listed(AS) && (t, AS.index) == AddNew(alias, old(t), p)
      ensures fresh(Repr - old(Repr))
      ensures pointerMap == old(pointerMap)[p := AS]
    {
      assert Ready(MergeUpTo(alias, t, p, |t.v|).0, MergeUpTo(alias, t, p, |t.v|).1);
      var found := MergeAliasSetsForPointer(p);
      if found != null {
        AS := found;
      } else {
        AS := NewAliasSet();
      }
      AddToSet(AS, p);
    }

    /** The set that a pointer is in, which is made or found first if need be. */
    method GetAliasSetForPointer(p: Pointer) returns (AS: AliasSet)
      requires Sensible(alias) && Reflects() && (aliasAnyAS != null ==> Listed(aliasAnyAS))
      requires Usable(alias, t, Found(aliasAnyAS), p)
      modifies this, Repr
      ensures Reflects() && aliasAnyAS == old(aliasAnyAS) && Listed(AS)
      ensures Obtained(alias, old(t), Found(aliasAnyAS), p, t, AS.index)
      ensures aliasAnyAS != null ==> Listed(aliasAnyAS)
      ensures fresh(Repr - old(Repr))
    {
      if aliasAnyAS != null {
        AS := aliasAnyAS;
        if p !in pointerMap {
          AddToSet(AS, p);
        }
      } else if p in pointerMap {
        AS := GetAliasSet(p);
      } else {
        AS := AddNewPointer(p);
      }
    }

    /** Adds an access to the set of a tracked pointer. */
    method RecordAccess(AS: AliasSet, p: Pointer, e: set<Access>)
      requires Reflects() && Listed(AS) && p in t.home && t.home[p] == AS.index && p in t.acc
      modifies this`t, AS
      ensures Reflects() && t == Accessing(old(t), p, e)
    {
      ghost var f := AS.index;
      assert Mirrors(AS, f, t.v[f]);
      AS.Accesses := AS.Accesses + e;
      t := Accessing(t, p, e);
    }

    /** Makes one set of all sets. */
    method MergeAllAliasSets() returns (AS: AliasSet)
      requires Reflects() && aliasAnyAS == null && Kept(alias, t, None)
      modifies this, Repr
      ensures Reflects() && aliasAnyAS == AS && Listed(AS) && Kept(alias, t, Some(AS.index))
      ensures forall q :: q in t.home ==> t.home[q] == AS.index
      ensures t.home.Keys == old(t.home).Keys && t.acc == old(t.acc)
      ensures fresh(Repr - old(Repr))
    {
      ghost var t0 := t;
      var n := |sets|;
      AS := NewSaturatedSet();
      KeptToSaturating(alias, t0, t);
      for i := 0 to n
        invariant Reflects() && aliasAnyAS == AS && sets == old(sets) + [AS] && AS.index == n
        invariant StillSaturating(t, n, i)
        invariant t.home.Keys == t0.home.Keys && t.acc == t0.acc
        invariant Repr == old(Repr) + {AS} && fresh(AS)
      {
        SaturateOne(sets[i], i, AS);
      }
      SaturatedIsKept(alias, t, n);
    }

    method NewSaturatedSet() returns (AS: AliasSet)
      requires Reflects() && aliasAnyAS == null
      modifies this`sets, this`t, this`aliasAnyAS, this`Repr
      ensures Reflects() && fresh(AS) && Repr == old(Repr) + {AS} && sets == old(sets) + [AS]
      ensures AS.index == |old(sets)| && aliasAnyAS == AS
      ensures t == old(t).(v := old(t).v + [SetView(None, false, {Ref, Mod}, [])])
    {
      AS := NewAliasSet();
      MarkSaturated(AS);
    }

    /** From now on the given set stands for all. */
    method MarkSaturated(AS: AliasSet)
      requires Reflects() && Listed(AS) && aliasAnyAS == null && t.v[AS.index].forward == None
      requires t.v[AS.index].ptrs == []
      modifies this`t, this`aliasAnyAS, AS
      ensures Reflects() && aliasAnyAS == AS
      ensures t == old(t).(v := old(t).v[AS.index := SetView(None, false, {Ref, Mod}, [])])
    {
      ghost var t1 := t;
      forall i | 0 <= i < |sets|
        ensures sets[i].index == i
      {
        assert Mirrors(sets[i], i, t.v[i]);
      }
      aliasAnyAS := AS;
      AS.IsMust, AS.Accesses, AS.AliasAny := false, {Ref, Mod}, true;
      t := t.(v := t.v[AS.index := SetView(None, false, {Ref, Mod}, [])]);
      assert forall i {:trigger t.v[i]} :: 0 <= i < |sets| && i != AS.index ==> t.v[i] == t1.v[i] && sets[i] != AS;
    }

    method SaturateOne(cur: AliasSet, i: nat, AS: AliasSet)
      requires Reflects() && i < AS.index && Listed(AS) && sets[i] == cur && StillSaturating(t, AS.index, i)
      modifies this`t, this`totalMayAliasSetSize, cur, AS
      ensures Reflects() && StillSaturating(t, AS.index, i + 1)
      ensures t.home.Keys == old(t).home.Keys && t.acc == old(t).acc
    {
      assert Mirrors(cur, i, t.v[i]) && Look(t);
      if cur.Forward != null {
        Redirect(cur, i, AS);
      } else {
        Absorb(cur, i, AS);
      }
    }

    method Redirect(cur: AliasSet, i: nat, AS: AliasSet)
      requires Reflects() && i < AS.index && Listed(AS) && sets[i] == cur && StillSaturating(t, AS.index, i)
      requires t.v[i].forward.Some? && cur.index == i
      modifies this`t, cur
      ensures Reflects() && StillSaturating(t, AS.index, i + 1)
      ensures t.home == old(t).home && t.acc == old(t).acc
    {
      ghost var t0 := t;
      SetForward(cur, AS);
      SaturatingRedirect(t0, AS.index, i, t);
    }

    method Absorb(cur: AliasSet, i: nat, AS: AliasSet)
      requires Reflects() && i < AS.index && Listed(AS) && sets[i] == cur && StillSaturating(t, AS.index, i)
      requires t.v[i].forward == None && cur.index == i && t.v[i].ptrs != []
      requires t.v[AS.index].forward == None && !t.v[AS.index].must
      modifies this`t, this`totalMayAliasSetSize, cur, AS
      ensures Reflects() && StillSaturating(t, AS.index, i + 1)
      ensures t.home.Keys == old(t).home.Keys && t.acc == old(t).acc
    {
      ghost var t0 := t;
      MergeSetInto(AS, cur);
      SaturatingMerge(t0, AS.index, i, t);
    }

    /** The set of a pointer, as seen from outside. */
    method ObtainSet(p: Pointer) returns (AS: AliasSet)
      requires Coherent()
      modifies this, Repr
      ensures Coherent() && aliasAnyAS == old(aliasAnyAS) && Listed(AS)
      ensures Placed(old(t), p, t, AS.index)
      ensures fresh(Repr - old(Repr))
    {
      KeptIsUsable(alias, t, Found(aliasAnyAS), p);
      AS := GetAliasSetForPointer(p);
      ObtainedKeeps(alias, old(t), Found(aliasAnyAS), p, t, AS.index);
    }

    /** Finds or makes the set of a pointer and records the access. */
    method AddAccess(p: Pointer, e: set<Access>) returns (AS: AliasSet)
      requires Coherent()
      modifies this, Repr
      ensures Coherent() && aliasAnyAS == old(aliasAnyAS) && Listed(AS)
      ensures Entered(old(t), p, e, t) && t.home[p] == AS.index
      ensures fresh(Repr - old(Repr))
    {
      AS := ObtainSet(p);
      ghost var t1 := t;
      RecordKept(AS, p, e);
      PlacedThenAccessed(old(t), p, e, t1, AS.index, t);
    }

    method RecordKept(AS: AliasSet, p: Pointer, e: set<Access>)
      requires Coherent() && Listed(AS) && p in t.home && t.home[p] == AS.index
      modifies this`t, AS
      ensures Coherent() && p in old(t).acc
      ensures t.home == old(t).home && t.acc == old(t).acc[p := old(t).acc[p] + e]
    {
      ghost var t1 := t;
      KeptTracks(alias, t, Found(aliasAnyAS), p);
      RecordAccess(AS, p, e);
      AccessKeepsKept(alias, t1, Found(aliasAnyAS), p, e, t);
    }

    /** Adds a pointer with the way it is accessed.  The sets stay exactly the connected
        components until the may sets hold too many pointers; then there is only one set. */
    method AddPointer(p: Pointer, e: set<Access>) returns (AS: AliasSet)
      requires Valid()
      modifies this, Repr
      ensures Valid() && Listed(AS) && Entered(old(t), p, e, t)
      ensures old(aliasAnyAS) != null ==> aliasAnyAS == old(aliasAnyAS)
      ensures aliasAnyAS != null <==> TooMany(alias, old(t).home.Keys + {p})
      ensures t.home[p] == AS.index
      ensures fresh(Repr - old(Repr))
    {
      MayPointersGrow(alias, t.home.Keys, t.home.Keys + {p});
      AS := AddAccess(p, e);
      AS := SaturateIfTooMany(AS, p);
    }

    /** Makes one set of all if the may sets hold too many pointers. */
    method SaturateIfTooMany(found: AliasSet, p: Pointer) returns (AS: AliasSet)
      requires Coherent() && Listed(found) && p in t.home && t.home[p] == found.index
      requires aliasAnyAS != null ==> TooMany(alias, t.home.Keys)
      modifies this, Repr
      ensures Valid() && Listed(AS) && p in t.home && t.home[p] == AS.index
      ensures t.home.Keys == old(t).home.Keys && t.acc == old(t).acc
      ensures old(aliasAnyAS) != null ==> aliasAnyAS == old(aliasAnyAS)
      ensures fresh(Repr - old(Repr))
    {
      AS := found;
      if aliasAnyAS == null {
        TotalIsMayPointers(alias, t);
        if totalMayAliasSetSize > SATURATION_THRESHOLD {
          AS := MergeAllAliasSets();
        }
      }
    }

    /** What the tracker holds after additions: the connected components, each a must set iff its
        pointers all must alias each other and accessed exactly as they are; or one set of all, if more
        than 250 of them are linked to two that need not alias. */
    ghost predicate Tracks(ps: seq<(Pointer, set<Access>)>)
      reads this, Repr
    {
      && t.home.Keys == Added(ps) && (aliasAnyAS != null <==> TooMany(alias, Added(ps)))
      && if aliasAnyAS == null then
           Family(t.v) == Components(alias, Added(ps)) && MustsRight(alias, t.v)
           && AccessesRight(t.v, t.home, AccessesOf(ps))
         else
           aliasAnyAS.index < |t.v| && Elements(t.v[aliasAnyAS.index].ptrs) == Added(ps)
           && t.v[aliasAnyAS.index].access == {Ref, Mod}
    }

    /** Adds pointers one after the other. */
    method AddAll(ps: seq<(Pointer, set<Access>)>)
      requires Valid() && t.home == map[] && t.acc == map[]
      modifies this, Repr
      ensures Valid() && Tracks(ps) && fresh(Repr - old(Repr))
    {
      for i := 0 to |ps|
        invariant Valid() && fresh(Repr - old(Repr))
        invariant t.home.Keys == Added(ps[..i]) && t.acc == AccessesOf(ps[..i])
      {
        var _ := AddPointer(ps[i].0, ps[i].1);
        assert ps[..i + 1] == ps[..i] + [ps[i]];
        AddedOneMore(ps[..i], ps[i]);
      }
      assert ps[..|ps|] == ps;
      ValidTracks(ps);
    }

    lemma ValidTracks(ps: seq<(Pointer, set<Access>)>)
      requires Valid() && t.home.Keys == Added(ps) && t.acc == AccessesOf(ps)
      ensures Tracks(ps)
    {
      if aliasAnyAS == null {
        ExactSets(alias, t);
      } else {
        OneSet(alias, t, aliasAnyAS.index);
      }
    }
  }

  /** A new tracker to which pointers are added. */
  method TrackAll(alias: Oracle, ps: seq<(Pointer, set<Access>)>) returns (tracker: AliasSetTracker)
    requires Sensible(alias)
    ensures fresh(tracker) && tracker.alias == alias && tracker.Valid() && tracker.Tracks(ps)
  {
    tracker := new AliasSetTracker(alias);
    tracker.AddAll(ps);
  }
}
