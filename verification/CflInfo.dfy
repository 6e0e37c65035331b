/** What the analysis keeps about a function once the closure is computed, and the alias
    queries answered from it. */
module CflInfo {
  import opened CflGraph
  import opened CflRules
  import opened CflAnders
  import opened CflAttrs
  import opened CflPaths
  import opened Sorting

  const ATTR_ESCAPED_INDEX := 0
  const ATTR_UNKNOWN_INDEX := 1
  const ATTR_CALLER_INDEX := 3

  const UNKNOWN_OFFSET: int := 0x7FFF_FFFF_FFFF_FFFF
  const INT64_MAX: int := 0x7FFF_FFFF_FFFF_FFFF
  const UNKNOWN_SIZE: nat := 0xFFFF_FFFF_FFFF_FFFF

  predicate HasUnknownOrCallerAttr(attrs: set<Attr>) {
    ATTR_UNKNOWN_INDEX in attrs || ATTR_CALLER_INDEX in attrs
  }

  predicate IsGlobalOrArgAttr(attrs: set<Attr>) {
    attrs - {ATTR_ESCAPED_INDEX, ATTR_UNKNOWN_INDEX, ATTR_CALLER_INDEX} != {}
  }

  datatype OffsetValue = OffsetValue(val: Value, offset: int)

  /** Sorted by value, as the lookup by value needs it. */
  predicate SortedByValue(s: seq<OffsetValue>) {
    forall i, j :: 0 <= i < j < |s| ==> s[i].val <= s[j].val
  }

  predicate LessEq(a: OffsetValue, b: OffsetValue) {
    a.val < b.val || (a.val == b.val && a.offset <= b.offset)
  }

  /** The alias lists are sorted by value and offset. */
  function SortAliases(s: seq<OffsetValue>): seq<OffsetValue> {
    Sort(s, LessEq)
  }

  lemma SortAliasesSorts(s: seq<OffsetValue>)
    ensures SortedByValue(SortAliases(s)) && forall o :: o in SortAliases(s) <==> o in s
  {
    var r := SortAliases(s);
    SortIsPermutation(s, LessEq);
    assert forall i, j :: 0 <= i < j < |r| ==> LessEq(r[i], r[j]);
    forall o
      ensures o in r <==> o in s
    {
      assert o in multiset(r) <==> o in multiset(s);
    }
  }

  /** The entries with the given value: a contiguous range, since the list is sorted. */
  method EqualRange(s: seq<OffsetValue>, val: Value) returns (lo: nat, hi: nat)
    requires SortedByValue(s)
    ensures lo <= hi <= |s|
    ensures forall i :: 0 <= i < |s| ==> (s[i].val == val <==> lo <= i < hi)
  {
    lo := 0;
    while lo < |s| && s[lo].val < val
      invariant lo <= |s| && forall i :: 0 <= i < lo ==> s[i].val < val
    {
      lo := lo + 1;
    }
    hi := lo;
    while hi < |s| && s[hi].val <= val
      invariant lo <= hi <= |s| && forall i :: lo <= i < hi ==> s[i].val == val
    {
      hi := hi + 1;
    }
  }

  /** The top-level part of an attribute map: values that occur at any level are known. */
  ghost predicate TopAttrs(m: map<Node, set<Attr>>, am: map<Value, set<Attr>>) {
    && (forall v :: v in am <==> exists n :: n in m && n.val == v)
    && (forall v :: v in am ==> am[v] == AttrsOf(m, Node(v, 0)))
  }

  /** The top-level part of the value aliases. */
  ghost predicate TopAliases(R: set<Fact>, al: map<Value, seq<OffsetValue>>) {
    && (forall v :: v in al ==> SortedByValue(al[v]))
    && (forall v, o :: v in al && o in al[v] ==> o.offset == UNKNOWN_OFFSET)
    && (forall v, w :: Aliases(R, Node(w, 0), Node(v, 0)) <==> v in al && OffsetValue(w, UNKNOWN_OFFSET) in al[v])
  }

  /** The answer to an alias query, in terms of the relations. */
  ghost predicate MayAliasSpec(R: set<Fact>, am: map<Value, set<Attr>>, lhs: Value, rhs: Value) {
    if lhs !in am || rhs !in am then true
    else if HasUnknownOrCallerAttr(am[lhs]) then am[rhs] != {}
    else if HasUnknownOrCallerAttr(am[rhs]) then am[lhs] != {}
    else if IsGlobalOrArgAttr(am[lhs]) then IsGlobalOrArgAttr(am[rhs])
    else if IsGlobalOrArgAttr(am[rhs]) then IsGlobalOrArgAttr(am[lhs])
    else Aliases(R, Node(rhs, 0), Node(lhs, 0))
  }

  /** An entry of the alias list makes the two accesses overlap, as far as can be told. */
  predicate MayOverlap(o: OffsetValue, lhsSize: nat, rhsSize: nat) {
    || lhsSize == UNKNOWN_SIZE || rhsSize == UNKNOWN_SIZE
    || o.offset == UNKNOWN_OFFSET
    || lhsSize > INT64_MAX || rhsSize > INT64_MAX
    || (o.offset + lhsSize > 0 && o.offset < rhsSize)
  }

  /** The answer to an alias query, in terms of what is kept. */
  ghost predicate Query(am: map<Value, set<Attr>>, al: map<Value, seq<OffsetValue>>,
                        lhs: Value, lhsSize: nat, rhs: Value, rhsSize: nat) {
    if lhs !in am || rhs !in am then true
    else if HasUnknownOrCallerAttr(am[lhs]) then am[rhs] != {}
    else if HasUnknownOrCallerAttr(am[rhs]) then am[lhs] != {}
    else if IsGlobalOrArgAttr(am[lhs]) then IsGlobalOrArgAttr(am[rhs])
    else if IsGlobalOrArgAttr(am[rhs]) then IsGlobalOrArgAttr(am[lhs])
    else lhs in al && exists o :: o in al[lhs] && o.val == rhs && MayOverlap(o, lhsSize, rhsSize)
  }

  /** All aliases are kept at an unknown offset, so the sizes of the accesses never matter. */
  lemma QueryIsMayAlias(R: set<Fact>, am: map<Value, set<Attr>>, al: map<Value, seq<OffsetValue>>,
                        lhs: Value, lhsSize: nat, rhs: Value, rhsSize: nat)
    requires TopAliases(R, al)
    ensures Query(am, al, lhs, lhsSize, rhs, rhsSize) <==> MayAliasSpec(R, am, lhs, rhs)
  {
  }

  class FunctionInfo {
    var aliasMap: map<Value, seq<OffsetValue>>
    var attrMap: map<Value, set<Attr>>

    ghost predicate Describes(R: set<Fact>, m: map<Node, set<Attr>>)
      reads this
    {
      TopAttrs(m, attrMap) && TopAliases(R, aliasMap)
    }

    constructor (reachSet: ReachabilitySet, aMap: AliasAttrMap)
      requires reachSet.Valid()
      ensures Describes(reachSet.facts, aMap.attrMap)
    {
      new;
      PopulateAttrMap(aMap);
      PopulateAliasMap(reachSet);
    }

    method PopulateAttrMap(aMap: AliasAttrMap)
      modifies `attrMap
      ensures TopAttrs(aMap.attrMap, attrMap)
    {
      var m := aMap.attrMap;
      attrMap := map[];
      var rest := m.Keys;
      while rest != {}
        invariant rest <= m.Keys
        invariant forall v :: v in attrMap <==> exists n :: n in m.Keys - rest && n.val == v
        invariant forall v :: v in attrMap ==> attrMap[v] == if Node(v, 0) in m.Keys - rest then m[Node(v, 0)] else {}
      {
        var iVal :| iVal in rest;
        rest := rest - {iVal};
        var attr := if iVal.val in attrMap then attrMap[iVal.val] else {};
        attrMap := attrMap[iVal.val := if iVal.level == 0 then attr + m[iVal] else attr];
      }
      assert m.Keys - rest == m.Keys;
    }

    method PopulateAliasMap(reachSet: ReachabilitySet)
      requires reachSet.Valid()
      modifies `aliasMap
      ensures TopAliases(reachSet.facts, aliasMap)
    {
      var reachMap := reachSet.reachMap;
      aliasMap := map[];
      var rest := reachMap.Keys;
      while rest != {}
        invariant rest <= reachMap.Keys
        invariant forall v :: v in aliasMap <==> Node(v, 0) in reachMap.Keys - rest
        invariant forall v :: v in aliasMap ==> SortedByValue(aliasMap[v])
        invariant forall v, o :: v in aliasMap ==>
                    (o in aliasMap[v] <==> o.offset == UNKNOWN_OFFSET && Node(o.val, 0) in reachMap[Node(v, 0)])
      {
        var outer :| outer in rest;
        rest := rest - {outer};
        if outer.level == 0 {
          var aliasList := TopLevelAliases(reachMap[outer].Keys);
          SortAliasesSorts(aliasList);
          aliasMap := aliasMap[outer.val := SortAliases(aliasList)];
        }
      }
      forall v, w | Node(v, 0) in reachMap && Node(w, 0) in reachMap[Node(v, 0)]
        ensures Aliases(reachSet.facts, Node(w, 0), Node(v, 0))
      {
        var s :| s in reachMap[Node(v, 0)][Node(w, 0)];
        assert reachSet.Holds(Fact(Node(w, 0), Node(v, 0), s));
      }
      forall v, w | Aliases(reachSet.facts, Node(w, 0), Node(v, 0))
        ensures v in aliasMap && OffsetValue(w, UNKNOWN_OFFSET) in aliasMap[v]
      {
        var s :| Fact(Node(w, 0), Node(v, 0), s) in reachSet.facts;
        assert reachSet.Holds(Fact(Node(w, 0), Node(v, 0), s));
      }
    }

    /** Whether lhs and rhs may alias; sizes matter only for aliases at a known offset. */
    method MayAlias(lhs: Value, lhsSize: nat, rhs: Value, rhsSize: nat) returns (r: bool)
      requires forall v :: v in aliasMap ==> SortedByValue(aliasMap[v])
      ensures r <==> Query(attrMap, aliasMap, lhs, lhsSize, rhs, rhsSize)
    {
      if lhs !in attrMap || rhs !in attrMap {
        return true;
      }
      var attrsA, attrsB := attrMap[lhs], attrMap[rhs];
      if HasUnknownOrCallerAttr(attrsA) {
        return attrsB != {};
      }
      if HasUnknownOrCallerAttr(attrsB) {
        return attrsA != {};
      }
      if IsGlobalOrArgAttr(attrsA) {
        return IsGlobalOrArgAttr(attrsB);
      }
      if IsGlobalOrArgAttr(attrsB) {
        return IsGlobalOrArgAttr(attrsA);
      }
      if lhs in aliasMap {
        var list := aliasMap[lhs];
        var lo, hi := EqualRange(list, rhs);
        if lo != hi {
          if lhsSize == UNKNOWN_SIZE || rhsSize == UNKNOWN_SIZE {
            assert list[lo] in list && MayOverlap(list[lo], lhsSize, rhsSize);
            return true;
          }
          for i := lo to hi
            invariant forall j :: lo <= j < i ==> !MayOverlap(list[j], lhsSize, rhsSize)
          {
            var oVal := list[i];
            assert oVal in list && oVal.val == rhs;
            if oVal.offset == UNKNOWN_OFFSET {
              return true;
            }
            if lhsSize > INT64_MAX || rhsSize > INT64_MAX {
              return true;
            }
            if oVal.offset + lhsSize > 0 && oVal.offset < rhsSize {
              return true;
            }
          }
        }
      }
      return false;
    }
  }

  /** The top-level values among the nodes, each once, in any order. */
  method TopLevelAliases(nodes: set<Node>) returns (list: seq<OffsetValue>)
    ensures forall o :: o in list <==> o.offset == UNKNOWN_OFFSET && Node(o.val, 0) in nodes
  {
    list := [];
    var rest := nodes;
    while rest != {}
      invariant rest <= nodes
      invariant forall o :: o in list <==> o.offset == UNKNOWN_OFFSET && Node(o.val, 0) in nodes - rest
    {
      var inner :| inner in rest;
      rest := rest - {inner};
      if inner.level == 0 {
        list := list + [OffsetValue(inner.val, UNKNOWN_OFFSET)];
      }
    }
  }

  /** At the fixpoint, answers do not depend on the order of the two values, whatever the sizes of
      the accesses are. */
  lemma MayAliasIsSymmetric(g: Levels, R: set<Fact>, M: set<MemAlias>, am: map<Value, set<Attr>>,
                            al: map<Value, seq<OffsetValue>>, a: Value, aSize: nat, b: Value, bSize: nat)
    requires WellFormed(g) && IsLeast(g, R, M, true) && TopAliases(R, al)
    ensures Query(am, al, a, aSize, b, bSize) <==> Query(am, al, b, bSize, a, aSize)
  {
    QueryIsMayAlias(R, am, al, a, aSize, b, bSize);
    QueryIsMayAlias(R, am, al, b, bSize, a, aSize);
    AliasingIsSymmetric(g, R, M);
  }

  /** When two different values are said not to alias: both are known, and either one has attribute
      1 or 3 and the other has none at all; or neither has 1 or 3, and one has an attribute above 3,
      or 2, and the other has not; or neither has more than attribute 0, and no path of assignments
      and memory aliases leads from the one to the other. */
  lemma NoAliasIff(g: Levels, R: set<Fact>, M: set<MemAlias>, R2: set<Fact>, M2: set<MemAlias>,
                   am: map<Value, set<Attr>>, al: map<Value, seq<OffsetValue>>, a: Value, aSize: nat, b: Value,
                   bSize: nat)
    requires WellFormed(g) && IsLeast(g, R, M, true) && IsLeast(g, R2, M2, false) && TopAliases(R, al) && a != b
    ensures !Query(am, al, a, aSize, b, bSize) <==>
              && a in am && b in am
              && (|| ((1 in am[a] || 3 in am[a]) && am[b] == {})
                  || ((1 in am[b] || 3 in am[b]) && am[a] == {})
                  || (1 !in am[a] + am[b] && 3 !in am[a] + am[b]
                      && ((exists x :: x in am[a] && (x == 2 || x > 3))
                          != (exists x :: x in am[b] && (x == 2 || x > 3))))
                  || (am[a] + am[b] <= {0} && !Connected(g, M2, Node(a, 0), Node(b, 0))))
  {
    QueryIsMayAlias(R, am, al, a, aSize, b, bSize);
    AliasingIsSymmetric(g, R, M);
    DistinctAliasesArePaths(g, R, M, R2, M2);
    if a in am && b in am {
      GlobalOrArgument(am[a]);
      GlobalOrArgument(am[b]);
    }
  }

  /** So two known local values are said not to alias only if no path relates them, in either
      direction and whether or not pairs of equal nodes are dropped on the way. */
  lemma NoAliasIsSound(g: Levels, R: set<Fact>, M: set<MemAlias>, R2: set<Fact>, M2: set<MemAlias>,
                       am: map<Value, set<Attr>>, a: Value, b: Value)
    requires WellFormed(g) && IsLeast(g, R, M, true) && IsLeast(g, R2, M2, false)
    requires a != b && !MayAliasSpec(R, am, a, b)
    requires forall v :: v in {a, b} && v in am ==> !HasUnknownOrCallerAttr(am[v]) && !IsGlobalOrArgAttr(am[v])
    ensures !Aliases(R2, Node(a, 0), Node(b, 0)) && !Aliases(R2, Node(b, 0), Node(a, 0))
  {
    AliasingIsSymmetric(g, R, M);
    FilterLosesNoAlias(g, R, M, R2, M2);
    assert a in {a, b} && b in {a, b};
  }

  lemma GlobalOrArgument(attrs: set<Attr>)
    ensures IsGlobalOrArgAttr(attrs) <==> exists x :: x in attrs && (x == 2 || x > 3)
    ensures HasUnknownOrCallerAttr(attrs) <==> 1 in attrs || 3 in attrs
    ensures !IsGlobalOrArgAttr(attrs) && !HasUnknownOrCallerAttr(attrs) <==> attrs <= {0}
  {
    var rest := attrs - {ATTR_ESCAPED_INDEX, ATTR_UNKNOWN_INDEX, ATTR_CALLER_INDEX};
    if x :| x in attrs && (x == 2 || x > 3) {
      assert x in rest;
    }
    if rest != {} {
      var x :| x in rest;
      assert x in attrs && (x == 2 || x > 3);
    }
    if attrs <= {0} {
      assert rest == {};
    }
  }

  /** The whole analysis of one function: what it keeps is the least solution of the rules and
      the attributes that flow along it. */
  method BuildInfoFrom(g: Levels) returns (info: FunctionInfo, ghost R: set<Fact>, ghost M: set<MemAlias>)
    requires WellFormed(g)
    ensures fresh(info) && IsLeast(g, R, M, true) && TopAliases(R, info.aliasMap)
    ensures forall v :: v in info.attrMap <==> exists n :: IsNode(g, n) && n.val == v
    ensures forall v, a :: v in info.attrMap ==> (a in info.attrMap[v] <==> Inherits(g, R, Node(v, 0), a))
  {
    var reachSet, memSet := BuildReachability(g);
    R, M := reachSet.facts, memSet.mems;
    OnlyDistinctPairs(g, R, M);
    NodesOfMems(g, R, M);
    var attrMap := BuildAttrMap(g, reachSet);
    assert forall n :: n in attrMap.attrMap <==> IsNode(g, n);
    info := new FunctionInfo(reachSet, attrMap);
  }
}
