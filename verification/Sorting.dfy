/** Sorting by insertion, in any order that compares all elements. */
module Sorting {

  /** Any two elements compare, and comparisons chain. */
  ghost predicate Orders<T(!new)>(le: (T, T) -> bool) {
    && (forall a, b :: le(a, b) || le(b, a))
    && (forall a, b, c :: le(a, b) && le(b, c) ==> le(a, c))
  }

  predicate SortedBy<T>(s: seq<T>, le: (T, T) -> bool) {
    forall i, j :: 0 <= i < j < |s| ==> le(s[i], s[j])
  }

  function Insert<T>(s: seq<T>, x: T, le: (T, T) -> bool): seq<T> {
    if s == [] || le(s[|s| - 1], x) then s + [x] else Insert(s[..|s| - 1], x, le) + [s[|s| - 1]]
  }

  function Sort<T>(s: seq<T>, le: (T, T) -> bool): seq<T> {
    if s == [] then [] else Insert(Sort(s[..|s| - 1], le), s[|s| - 1], le)
  }

  lemma FrontAndLast<T>(s: seq<T>)
    requires s != []
    ensures s == s[..|s| - 1] + [s[|s| - 1]] && multiset(s) == multiset(s[..|s| - 1]) + multiset{s[|s| - 1]}
  {
    assert s == s[..|s| - 1] + [s[|s| - 1]];
  }

  lemma {:induction false} InsertAdds<T>(s: seq<T>, x: T, le: (T, T) -> bool)
    ensures multiset(Insert(s, x, le)) == multiset(s) + multiset{x}
  {
    if !(s == [] || le(s[|s| - 1], x)) {
      InsertAdds(s[..|s| - 1], x, le);
      FrontAndLast(s);
    }
  }

  lemma {:induction false} InsertSorts<T(!new)>(s: seq<T>, x: T, le: (T, T) -> bool)
    requires Orders(le) && SortedBy(s, le)
    ensures SortedBy(Insert(s, x, le), le)
  {
    if !(s == [] || le(s[|s| - 1], x)) {
      var front, last := s[..|s| - 1], s[|s| - 1];
      InsertSorts(front, x, le);
      InsertAdds(front, x, le);
      forall y | y in multiset(Insert(front, x, le))
        ensures le(y, last)
      {
        assert y == x || y in front;
      }
      AppendSorted(Insert(front, x, le), last, le);
    }
  }

  lemma AppendSorted<T>(s: seq<T>, x: T, le: (T, T) -> bool)
    requires SortedBy(s, le) && forall y :: y in multiset(s) ==> le(y, x)
    ensures SortedBy(s + [x], le)
  {
    forall i | 0 <= i < |s|
      ensures le(s[i], x)
    {
      assert s[i] in multiset(s);
    }
  }

  /** The result holds the same elements, in order. */
  lemma {:induction false} SortIsPermutation<T(!new)>(s: seq<T>, le: (T, T) -> bool)
    requires Orders(le)
    ensures multiset(Sort(s, le)) == multiset(s) && SortedBy(Sort(s, le), le)
  {
    if s != [] {
      var front, x := s[..|s| - 1], s[|s| - 1];
      SortIsPermutation(front, le);
      InsertAdds(Sort(front, le), x, le);
      InsertSorts(Sort(front, le), x, le);
      FrontAndLast(s);
    }
  }
}
