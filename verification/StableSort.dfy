/** Python's `sorted(items, key=...)`: a stable sort, as a function of an order on items. */
module StableSort {

  /** The comparison of two items by their keys: total and transitive, though distinct items may tie. */
  ghost predicate IsOrder<T(!new)>(le: (T, T) -> bool) {
    && (forall x, y :: le(x, y) || le(y, x))
    && (forall x, y, z :: le(x, y) && le(y, z) ==> le(x, z))
  }

  ghost predicate Sorted<T>(s: seq<T>, le: (T, T) -> bool) {
    forall i, j :: 0 <= i < j < |s| ==> le(s[i], s[j])
  }

  function Insert<T>(x: T, s: seq<T>, le: (T, T) -> bool): seq<T> {
    if s == [] then [x]
    else if le(x, s[0]) then [x] + s
    else [s[0]] + Insert(x, s[1..], le)
  }

  function Sort<T>(s: seq<T>, le: (T, T) -> bool): seq<T> {
    if s == [] then [] else Insert(s[0], Sort(s[1..], le), le)
  }

  /** The items that tie with `pivot`, in order. */
  function Ties<T>(s: seq<T>, pivot: T, le: (T, T) -> bool): seq<T> {
    if s == [] then []
    else (if le(s[0], pivot) && le(pivot, s[0]) then [s[0]] else []) + Ties(s[1..], pivot, le)
  }

  lemma {:induction false} InsertPermutes<T>(x: T, s: seq<T>, le: (T, T) -> bool)
    ensures multiset(Insert(x, s, le)) == multiset{x} + multiset(s)
    ensures |Insert(x, s, le)| == |s| + 1
  {
    if s == [] {
    } else {
      assert s == [s[0]] + s[1..];
      if !le(x, s[0]) { InsertPermutes(x, s[1..], le); }
    }
  }

  lemma {:induction false} InsertSorted<T(!new)>(x: T, s: seq<T>, le: (T, T) -> bool)
    requires IsOrder(le) && Sorted(s, le)
    ensures Sorted(Insert(x, s, le), le)
  {
    if s != [] && !le(x, s[0]) {
      InsertSorted(x, s[1..], le);
      InsertPermutes(x, s[1..], le);
      var t := Insert(x, s[1..], le);
      forall j | 0 <= j < |t|
        ensures le(s[0], t[j])
      {
        assert t[j] in multiset(t);
        assert t[j] == x || t[j] in s[1..];
      }
    }
  }

  /** The result is ordered and holds exactly the same items. */
  lemma {:induction false} SortSorts<T(!new)>(s: seq<T>, le: (T, T) -> bool)
    requires IsOrder(le)
    ensures Sorted(Sort(s, le), le)
    ensures multiset(Sort(s, le)) == multiset(s)
    ensures |Sort(s, le)| == |s|
  {
    if s == [] {
    } else {
      SortSorts(s[1..], le);
      InsertSorted(s[0], Sort(s[1..], le), le);
      InsertPermutes(s[0], Sort(s[1..], le), le);
      assert s == [s[0]] + s[1..];
    }
  }

  lemma {:induction false} InsertTies<T(!new)>(x: T, s: seq<T>, pivot: T, le: (T, T) -> bool)
    requires IsOrder(le)
    ensures Ties(Insert(x, s, le), pivot, le) == Ties([x], pivot, le) + Ties(s, pivot, le)
  {
    if s != [] && !le(x, s[0]) {
      InsertTies(x, s[1..], pivot, le);
      assert Insert(x, s, le)[1..] == Insert(x, s[1..], le);
    } else if s != [] {
      assert ([x] + s)[1..] == s;
    }
  }

  /** Items that tie keep their original relative order. */
  lemma {:induction false} SortIsStable<T(!new)>(s: seq<T>, pivot: T, le: (T, T) -> bool)
    requires IsOrder(le)
    ensures Ties(Sort(s, le), pivot, le) == Ties(s, pivot, le)
  {
    if s == [] {
    } else {
      SortIsStable(s[1..], pivot, le);
      InsertTies(s[0], Sort(s[1..], le), pivot, le);
    }
  }

  lemma SortedCons<T(!new)>(x: T, s: seq<T>, r: (T, T) -> bool)
    ensures Sorted([x] + s, r) <==> Sorted(s, r) && forall y :: y in s ==> r(x, y)
  {
    var t := [x] + s;
    if Sorted(t, r) {
      forall i, j | 0 <= i < j < |s|
        ensures r(s[i], s[j])
      {
        assert r(t[i + 1], t[j + 1]);
      }
      forall y | y in s
        ensures r(x, y)
      {
        var j :| 0 <= j < |s| && s[j] == y;
        assert r(t[0], t[j + 1]);
      }
    }
  }

  /** How a stable sort lists two items of which x came first: x first, unless y is strictly lower. */
  predicate ListedAs<T>(x: T, y: T, le: (T, T) -> bool, r: (T, T) -> bool) {
    if le(x, y) then r(x, y) else r(y, x)
  }

  ghost predicate AllListedAs<T>(s: seq<T>, le: (T, T) -> bool, r: (T, T) -> bool) {
    forall i, j :: 0 <= i < j < |s| ==> ListedAs(s[i], s[j], le, r)
  }

  lemma {:induction false} InsertListsPairs<T(!new)>(x: T, s: seq<T>, le: (T, T) -> bool, r: (T, T) -> bool)
    requires IsOrder(le) && Sorted(s, le)
    ensures Sorted(Insert(x, s, le), r) <==> Sorted(s, r) && forall y :: y in s ==> ListedAs(x, y, le, r)
  {
    if s == [] {
    } else if le(x, s[0]) {
      forall y | y in s
        ensures le(x, y)
      {
        var j :| 0 <= j < |s| && s[j] == y;
        assert j == 0 || le(s[0], s[j]);
      }
      SortedCons(x, s, r);
    } else {
      InsertListsPairs(x, s[1..], le, r);
      InsertMembers(x, s[1..], le);
      PassedOver(s[0], x, s[1..], Insert(x, s[1..], le), le, r);
      assert s == [s[0]] + s[1..];
    }
  }

  lemma InsertMembers<T(!new)>(x: T, s: seq<T>, le: (T, T) -> bool)
    ensures forall y :: y in Insert(x, s, le) <==> y == x || y in s
  {
    InsertPermutes(x, s, le);
    forall y
      ensures y in Insert(x, s, le) <==> y == x || y in s
    {
      assert y in Insert(x, s, le) <==> y in multiset(Insert(x, s, le));
    }
  }

  lemma PassedOver<T(!new)>(first: T, x: T, s: seq<T>, rest: seq<T>, le: (T, T) -> bool, r: (T, T) -> bool)
    requires !le(x, first) && forall y :: y in rest <==> y == x || y in s
    requires Sorted(rest, r) <==> Sorted(s, r) && forall y :: y in s ==> ListedAs(x, y, le, r)
    ensures Sorted([first] + rest, r) <==>
            Sorted([first] + s, r) && forall y :: y in [first] + s ==> ListedAs(x, y, le, r)
  {
    hide Sorted;
    SortedCons(first, rest, r);
    SortedCons(first, s, r);
    var all := [first] + s;
    assert forall y :: y in all <==> y == first || y in s;
    assert ListedAs(x, first, le, r) == r(first, x);
    assert first in all && x in rest;
    if Sorted(all, r) && forall y :: y in all ==> ListedAs(x, y, le, r) {
      assert forall y :: y in rest ==> r(first, y);
    }
  }

  /** What the sorted list says of its pairs, in terms of the unsorted one: any relation holds of every two
      items as sorted exactly when it holds of every two as a stable sort lists them. */
  lemma {:induction false} SortListsPairs<T(!new)>(s: seq<T>, le: (T, T) -> bool, r: (T, T) -> bool)
    requires IsOrder(le)
    ensures Sorted(Sort(s, le), r) <==> AllListedAs(s, le, r)
  {
    if s == [] {
    } else {
      var rest := Sort(s[1..], le);
      SortListsPairs(s[1..], le, r);
      SortSorts(s[1..], le);
      InsertListsPairs(s[0], rest, le, r);
      forall y
        ensures y in rest <==> y in s[1..]
      {
        assert y in rest <==> y in multiset(rest);
      }
      FirstListedAs(s, le, r);
    }
  }

  lemma FirstListedAs<T>(s: seq<T>, le: (T, T) -> bool, r: (T, T) -> bool)
    requires s != []
    ensures AllListedAs(s, le, r) <==>
            AllListedAs(s[1..], le, r) && forall j :: 1 <= j < |s| ==> ListedAs(s[0], s[j], le, r)
    ensures (forall j :: 1 <= j < |s| ==> ListedAs(s[0], s[j], le, r)) <==>
            forall y :: y in s[1..] ==> ListedAs(s[0], y, le, r)
  {
    var t := s[1..];
    if AllListedAs(s, le, r) {
      forall i, j | 0 <= i < j < |t|
        ensures ListedAs(t[i], t[j], le, r)
      {
        assert ListedAs(s[i + 1], s[j + 1], le, r);
      }
    }
    if AllListedAs(t, le, r) && forall j :: 1 <= j < |s| ==> ListedAs(s[0], s[j], le, r) {
      forall i, j | 0 <= i < j < |s|
        ensures ListedAs(s[i], s[j], le, r)
      {
        if i > 0 { assert ListedAs(t[i - 1], t[j - 1], le, r); }
      }
    }
    forall j | 1 <= j < |s|
      ensures s[j] in t
    {
      assert s[j] == t[j - 1];
    }
  }

  /** Sorting an ordered list changes nothing, ties included. */
  lemma {:induction false} SortFixesSorted<T(!new)>(s: seq<T>, le: (T, T) -> bool)
    requires Sorted(s, le)
    ensures Sort(s, le) == s
  {
    if s == [] {
    } else {
      SortFixesSorted(s[1..], le);
      if |s| > 1 {
        assert le(s[0], s[1]);
      }
    }
  }
}
