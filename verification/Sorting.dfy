/** The standard library's stable sort by a key. */
module Sorting {

  function InsertBy<T>(key: T -> int, x: T, s: seq<T>): seq<T>
  {
    if s == [] || key(x) <= key(s[0]) then [x] + s else [s[0]] + InsertBy(key, x, s[1..])
  }

  function SortBy<T>(key: T -> int, s: seq<T>): seq<T>
  {
    if s == [] then [] else InsertBy(key, s[0], SortBy(key, s[1..]))
  }

  ghost predicate SortedBy<T>(key: T -> int, s: seq<T>)
  {
    forall i, j :: 0 <= i < j < |s| ==> key(s[i]) <= key(s[j])
  }

  lemma {:induction false} InsertPermutes<T>(key: T -> int, x: T, s: seq<T>)
    ensures multiset(InsertBy(key, x, s)) == multiset(s) + multiset{x}
  {
    if s == [] {
    } else {
      assert s == [s[0]] + s[1..];
      if key(x) > key(s[0]) {
        InsertPermutes(key, x, s[1..]);
      }
    }
  }

  lemma {:induction false} InsertSorts<T>(key: T -> int, x: T, s: seq<T>)
    requires SortedBy(key, s)
    ensures SortedBy(key, InsertBy(key, x, s))
  {
    if s == [] || key(x) <= key(s[0]) {
    } else {
      var rest := InsertBy(key, x, s[1..]);
      InsertSorts(key, x, s[1..]);
      InsertPermutes(key, x, s[1..]);
      forall y | y in rest
        ensures key(s[0]) <= key(y)
      {
        assert y in multiset(rest);
        assert y == x || y in s[1..];
      }
      SortedCons(key, s[0], rest);
    }
  }

  lemma SortedCons<T>(key: T -> int, x: T, s: seq<T>)
    requires SortedBy(key, s) && forall y :: y in s ==> key(x) <= key(y)
    ensures SortedBy(key, [x] + s)
  {
    assert forall j :: 0 < j <= |s| ==> ([x] + s)[j] == s[j - 1] && s[j - 1] in s;
  }

  /** Sorting orders by the key and permutes. */
  lemma {:induction false} SortBySorts<T>(key: T -> int, s: seq<T>)
    ensures SortedBy(key, SortBy(key, s)) && multiset(SortBy(key, s)) == multiset(s)
  {
    if s == [] {
    } else {
      SortBySorts(key, s[1..]);
      InsertSorts(key, s[0], SortBy(key, s[1..]));
      InsertPermutes(key, s[0], SortBy(key, s[1..]));
      assert s == [s[0]] + s[1..];
    }
  }

  /** Among elements with equal keys, the order is kept. */
  ghost predicate Stable<T>(key: T -> int, order: T -> int, s: seq<T>)
  {
    forall i, j :: 0 <= i < j < |s| && key(s[i]) == key(s[j]) ==> order(s[i]) < order(s[j])
  }

  lemma StableCons<T>(key: T -> int, order: T -> int, x: T, s: seq<T>)
    requires Stable(key, order, s) && forall y :: y in s && key(y) == key(x) ==> order(x) < order(y)
    ensures Stable(key, order, [x] + s)
  {
    assert forall j :: 0 < j <= |s| ==> ([x] + s)[j] == s[j - 1] && s[j - 1] in s;
  }

  lemma {:induction false} InsertStable<T>(key: T -> int, order: T -> int, x: T, s: seq<T>)
    requires Stable(key, order, s) && forall y :: y in s ==> order(x) < order(y)
    ensures Stable(key, order, InsertBy(key, x, s))
  {
    if s == [] || key(x) <= key(s[0]) {
      StableCons(key, order, x, s);
    } else {
      var rest := InsertBy(key, x, s[1..]);
      InsertStable(key, order, x, s[1..]);
      InsertPermutes(key, x, s[1..]);
      forall y | y in rest && key(y) == key(s[0])
        ensures order(s[0]) < order(y)
      {
        assert y in multiset(rest);
        var j :| 0 <= j < |s[1..]| && s[1..][j] == y;
        assert s[j + 1] == y;
      }
      StableCons(key, order, s[0], rest);
    }
  }

  /** Sorting is stable: elements listed in some order keep it where their keys are equal. */
  lemma {:induction false} SortByStable<T>(key: T -> int, order: T -> int, s: seq<T>)
    requires forall i, j :: 0 <= i < j < |s| ==> order(s[i]) < order(s[j])
    ensures Stable(key, order, SortBy(key, s))
  {
    if s == [] {
    } else {
      var rest := SortBy(key, s[1..]);
      SortByStable(key, order, s[1..]);
      SortBySorts(key, s[1..]);
      forall y | y in rest
        ensures order(s[0]) < order(y)
      {
        assert y in multiset(rest);
        var j :| 0 <= j < |s[1..]| && s[1..][j] == y;
        assert s[j + 1] == y;
      }
      InsertStable(key, order, s[0], rest);
    }
  }

  lemma PermutationMembers<T>(s: seq<T>, t: seq<T>)
    requires multiset(s) == multiset(t)
    ensures |s| == |t| && forall x :: x in s <==> x in t
  {
    assert |multiset(s)| == |multiset(t)|;
    forall x
      ensures x in s <==> x in t
    {
      assert x in multiset(s) <==> x in multiset(t);
    }
  }

  ghost predicate Distinct<T>(s: seq<T>)
  {
    forall i, j :: 0 <= i < j < |s| ==> s[i] != s[j]
  }

  lemma {:induction false} DistinctByCount<T>(s: seq<T>)
    ensures Distinct(s) <==> forall x :: multiset(s)[x] <= 1
  {
    if s == [] {
    } else {
      var front, last := s[..|s| - 1], s[|s| - 1];
      assert s == front + [last];
      DistinctByCount(front);
      if Distinct(s) {
        assert last !in multiset(front);
      } else if Distinct(front) {
        assert last in multiset(front);
        assert multiset(s)[last] >= 2;
      } else {
        var x :| multiset(front)[x] > 1;
        assert multiset(s)[x] > 1;
      }
    }
  }

  lemma PermutationDistinct<T>(s: seq<T>, t: seq<T>)
    requires multiset(s) == multiset(t)
    ensures Distinct(s) <==> Distinct(t)
  {
    DistinctByCount(s);
    DistinctByCount(t);
  }
}
