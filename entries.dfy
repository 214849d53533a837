/** The `(distance, price, event_no)` tuples `get_nearest_events` returns,
    Python's tuple order on them, and `list.sort()` over that order. */
module Entries {

  /** One result tuple: Manhattan distance, lowest available price, event number. */
  datatype Entry = Entry(distance: int, price: int, eventNo: int)

  /** Python's `<=` on 3-tuples: lexicographic. */
  predicate LessEq(a: Entry, b: Entry) {
    || a.distance < b.distance
    || (a.distance == b.distance && a.price < b.price)
    || (a.distance == b.distance && a.price == b.price && a.eventNo <= b.eventNo)
  }

  lemma LessEqTotal(a: Entry, b: Entry)
    ensures LessEq(a, b) || LessEq(b, a)
    ensures LessEq(a, b) && LessEq(b, a) ==> a == b
  {
  }

  predicate Sorted(s: seq<Entry>) {
    forall i, j :: 0 <= i < j < |s| ==> LessEq(s[i], s[j])
  }

  lemma LessEqTrans(a: Entry, b: Entry, c: Entry)
    requires LessEq(a, b) && LessEq(b, c)
    ensures LessEq(a, c)
  {
  }

  /** `x` followed by a sorted list it does not exceed is sorted. */
  lemma SortedCons(x: Entry, s: seq<Entry>)
    requires Sorted(s) && forall i :: 0 <= i < |s| ==> LessEq(x, s[i])
    ensures Sorted([x] + s)
  {
    var r := [x] + s;
    forall i, j | 0 <= i < j < |r| ensures LessEq(r[i], r[j]) {
      assert r[j] == s[j - 1];
      if i > 0 {
        assert r[i] == s[i - 1];
      }
    }
  }

  /** A lower bound of every element of `s` and of `e` bounds every
      element of a permutation of `s` plus `e`. */
  lemma BoundOfPermutation(x: Entry, s: seq<Entry>, e: Entry, r: seq<Entry>)
    requires forall i :: 0 <= i < |s| ==> LessEq(x, s[i])
    requires LessEq(x, e) && multiset(r) == multiset(s) + multiset{e}
    ensures forall i :: 0 <= i < |r| ==> LessEq(x, r[i])
  {
    forall i | 0 <= i < |r| ensures LessEq(x, r[i]) {
      assert r[i] in multiset(r);
      if r[i] != e {
        assert r[i] in multiset(s);
        var k :| 0 <= k < |s| && s[k] == r[i];
      }
    }
  }

  /** Puts `e` into the sorted list `s` before the first element it does
      not exceed. */
  function Insert(e: Entry, s: seq<Entry>): (r: seq<Entry>)
    requires Sorted(s)
    ensures Sorted(r)
    ensures multiset(r) == multiset(s) + multiset{e}
  {
    if s == [] || LessEq(e, s[0]) then
      assert forall i :: 0 <= i < |s| ==> LessEq(e, s[i]) by {
        forall i | 0 <= i < |s| ensures LessEq(e, s[i]) {
          if i > 0 {
            LessEqTrans(e, s[0], s[i]);
          }
        }
      }
      SortedCons(e, s);
      [e] + s
    else
      var tail := s[1..];
      assert Sorted(tail) && forall i :: 0 <= i < |tail| ==> LessEq(s[0], tail[i]) by {
        forall i | 0 <= i < |tail| ensures LessEq(s[0], tail[i]) {
          assert tail[i] == s[i + 1];
        }
      }
      var rest := Insert(e, tail);
      LessEqTotal(e, s[0]);
      BoundOfPermutation(s[0], tail, e, rest);
      SortedCons(s[0], rest);
      assert s == [s[0]] + tail;
      [s[0]] + rest
  }

  /** `sorted(s)`: the elements of `s` in ascending tuple order. */
  function Sort(s: seq<Entry>): (r: seq<Entry>)
    ensures Sorted(r)
    ensures multiset(r) == multiset(s)
  {
    if s == [] then []
    else
      assert s == [s[0]] + s[1..];
      Insert(s[0], Sort(s[1..]))
  }

  /** A sorted list's first element is at most each of its elements. */
  lemma SortedHeadLeast(s: seq<Entry>, x: Entry)
    requires Sorted(s) && x in multiset(s)
    ensures LessEq(s[0], x)
  {
    var i :| 0 <= i < |s| && s[i] == x;
    if i > 0 {
      assert LessEq(s[0], s[i]);
    }
  }

  /** The tuple order is total, so there is only one sorted arrangement of
      a multiset of tuples: `sort` is deterministic however ties between
      distances and prices fall. */
  lemma {:induction false} SortedUnique(a: seq<Entry>, b: seq<Entry>)
    requires Sorted(a) && Sorted(b)
    requires multiset(a) == multiset(b)
    ensures a == b
    decreases |a|
  {
    if a != [] {
      assert |b| == |multiset(b)| == |multiset(a)| == |a|;
      assert a[0] in multiset(b) && b[0] in multiset(a);
      SortedHeadLeast(b, a[0]);
      SortedHeadLeast(a, b[0]);
      LessEqTotal(a[0], b[0]);
      MultisetOfTail(a);
      MultisetOfTail(b);
      SortedUnique(a[1..], b[1..]);
      assert a == [a[0]] + a[1..] && b == [b[0]] + b[1..];
    }
  }

  lemma MultisetOfTail(a: seq<Entry>)
    requires a != []
    ensures multiset(a[1..]) == multiset(a) - multiset{a[0]}
  {
    assert a == [a[0]] + a[1..];
  }

  /** Sorting two tuples puts the lesser first. */
  lemma SortOfPair(a: Entry, b: Entry)
    ensures Sort([a, b]) == if LessEq(a, b) then [a, b] else [b, a]
  {
    assert [a, b][1..] == [b] && [b][1..] == [];
    assert Sort([b]) == [b];
  }

  /** Sorting a sorted permutation of `s` gives the same list as sorting `s`. */
  lemma SortIsTheSortedPermutation(s: seq<Entry>, r: seq<Entry>)
    requires Sorted(r) && multiset(r) == multiset(s)
    ensures r == Sort(s)
  {
    SortedUnique(r, Sort(s));
  }
}
