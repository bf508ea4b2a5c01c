/**
 * Python's sorted(items, key=...): a stable sort by an integer key,
 * written as an insertion sort.
 */
module Sorting {
  import opened Grouping

  predicate SortedBy<T>(s: seq<T>, key: T -> int) {
    forall i, j :: 0 <= i < j < |s| ==> key(s[i]) <= key(s[j])
  }

  /** Inserting x before the first element whose key is not smaller. */
  function InsertBy<T>(x: T, s: seq<T>, key: T -> int): (r: seq<T>)
    ensures |r| == |s| + 1
  {
    if s == [] || key(x) <= key(s[0]) then [x] + s
    else [s[0]] + InsertBy(x, s[1..], key)
  }

  /** A sorted sequence stays sorted under a new head no larger than its first element. */
  lemma SortedCons<T>(y: T, r: seq<T>, key: T -> int)
    requires SortedBy(r, key)
    requires r == [] || key(y) <= key(r[0])
    ensures SortedBy([y] + r, key)
  {
    var t := [y] + r;
    forall i, j | 0 <= i < j < |t|
      ensures key(t[i]) <= key(t[j])
    {
      if i > 0 {
        assert t[i] == r[i - 1] && t[j] == r[j - 1];
      } else {
        assert t[j] == r[j - 1];
      }
    }
  }

  /** Inserting into a sorted sequence keeps it sorted; the new head is x or the old head. */
  lemma {:induction false} InsertBySorted<T>(x: T, s: seq<T>, key: T -> int)
    requires SortedBy(s, key)
    ensures SortedBy(InsertBy(x, s, key), key)
    ensures InsertBy(x, s, key)[0] == x || (s != [] && InsertBy(x, s, key)[0] == s[0])
    decreases |s|
  {
    if s == [] || key(x) <= key(s[0]) {
      SortedCons(x, s, key);
    } else {
      var rest := InsertBy(x, s[1..], key);
      InsertBySorted(x, s[1..], key);
      SortedCons(s[0], rest, key);
    }
  }

  /** Insertion adds exactly x. */
  lemma {:induction false} InsertByPermutes<T>(x: T, s: seq<T>, key: T -> int)
    ensures multiset(InsertBy(x, s, key)) == multiset(s) + multiset{x}
    decreases |s|
  {
    if s != [] && key(x) > key(s[0]) {
      InsertByPermutes(x, s[1..], key);
      assert s == [s[0]] + s[1..];
    }
  }

  /** sorted(s, key=key), by repeated insertion. */
  function SortBy<T>(s: seq<T>, key: T -> int): (r: seq<T>)
    ensures |r| == |s|
  {
    if s == [] then [] else InsertBy(s[0], SortBy(s[1..], key), key)
  }

  /** The output of the sort is non-decreasing in the key. */
  lemma {:induction false} SortBySorted<T>(s: seq<T>, key: T -> int)
    ensures SortedBy(SortBy(s, key), key)
    decreases |s|
  {
    if s != [] {
      SortBySorted(s[1..], key);
      InsertBySorted(s[0], SortBy(s[1..], key), key);
    }
  }

  /** The output of the sort is a permutation of its input. */
  lemma {:induction false} SortByPermutes<T>(s: seq<T>, key: T -> int)
    ensures multiset(SortBy(s, key)) == multiset(s)
    decreases |s|
  {
    if s != [] {
      SortByPermutes(s[1..], key);
      InsertByPermutes(s[0], SortBy(s[1..], key), key);
      assert s == [s[0]] + s[1..];
    }
  }

  /** Insertion places x before every element of its own key, and those keep their order. */
  lemma {:induction false} InsertKeepsEqualKeysOrder<T>(x: T, s: seq<T>, key: T -> int, v: int)
    ensures Filter(InsertBy(x, s, key), key, v) == (if key(x) == v then [x] else []) + Filter(s, key, v)
    decreases |s|
  {
    if s == [] || key(x) <= key(s[0]) {
      FilterCons(x, s, key, v);
    } else {
      var rest := InsertBy(x, s[1..], key);
      InsertKeepsEqualKeysOrder(x, s[1..], key, v);
      FilterCons(s[0], rest, key, v);
      FilterCons(s[0], s[1..], key, v);
      assert [s[0]] + s[1..] == s;
    }
  }

  /** The sort is stable: the elements of each key keep their input order. */
  lemma {:induction false} SortIsStable<T>(s: seq<T>, key: T -> int, v: int)
    ensures Filter(SortBy(s, key), key, v) == Filter(s, key, v)
    decreases |s|
  {
    if s != [] {
      SortIsStable(s[1..], key, v);
      InsertKeepsEqualKeysOrder(s[0], SortBy(s[1..], key), key, v);
    }
  }
}
