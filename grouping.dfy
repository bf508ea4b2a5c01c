/**
 * Grouping a list by a key the way the scripts fill a Python dict of lists:
 * walk the list once, create a key's list on its first occurrence, append.
 * A dict keeps its keys in insertion order, i.e. in order of first occurrence.
 */
module Grouping {

  predicate Distinct<K(==)>(ks: seq<K>) {
    forall i, j :: 0 <= i < j < |ks| ==> ks[i] != ks[j]
  }

  /** The elements of s whose key is k, in their original order. */
  function Filter<T(==), K(==)>(s: seq<T>, key: T -> K, k: K): (r: seq<T>)
    ensures |r| <= |s|
  {
    if s == [] then []
    else (if key(s[0]) == k then [s[0]] else []) + Filter(s[1..], key, k)
  }

  /** Filter of a suffix, unfolded at the suffix's first element. */
  lemma FilterSuffix<T, K>(s: seq<T>, key: T -> K, k: K, i: nat)
    requires i < |s|
    ensures Filter(s[i..], key, k) == (if key(s[i]) == k then [s[i]] else []) + Filter(s[i + 1..], key, k)
  {
    assert s[i..][1..] == s[i + 1..];
  }

  /** Filter of a list with a new head. */
  lemma FilterCons<T, K>(y: T, r: seq<T>, key: T -> K, k: K)
    ensures Filter([y] + r, key, k) == (if key(y) == k then [y] else []) + Filter(r, key, k)
  {
    assert ([y] + r)[1..] == r;
  }

  lemma {:induction false} FilterAppend<T, K>(a: seq<T>, b: seq<T>, key: T -> K, k: K)
    ensures Filter(a + b, key, k) == Filter(a, key, k) + Filter(b, key, k)
    decreases |a|
  {
    if a == [] {
      assert a + b == b;
    } else {
      var head := if key(a[0]) == k then [a[0]] else [];
      var ab := a + b;
      assert ab[0] == a[0] && ab[1..] == a[1..] + b;
      assert Filter(ab, key, k) == head + Filter(a[1..] + b, key, k);
      assert Filter(a, key, k) == head + Filter(a[1..], key, k);
      FilterAppend(a[1..], b, key, k);
      AppendAssoc(head, Filter(a[1..], key, k), Filter(b, key, k));
    }
  }

  lemma AppendAssoc<T>(x: seq<T>, y: seq<T>, z: seq<T>)
    ensures x + (y + z) == (x + y) + z
  {
  }

  /** An element lies in the group of its own key and in no other. */
  lemma {:induction false} FilterMembership<T, K>(s: seq<T>, key: T -> K, k: K, x: T)
    ensures x in Filter(s, key, k) <==> x in s && key(x) == k
    decreases |s|
  {
    if s != [] {
      FilterMembership(s[1..], key, k, x);
      assert s == [s[0]] + s[1..];
    }
  }

  /** The indices j >= i whose element has key k, ascending. */
  function PositionsFrom<T, K(==)>(s: seq<T>, key: T -> K, k: K, i: nat): (ps: seq<nat>)
    requires i <= |s|
    ensures forall t :: 0 <= t < |ps| ==> i <= ps[t] < |s|
    decreases |s| - i
  {
    if i == |s| then []
    else (if key(s[i]) == k then [i] else []) + PositionsFrom(s, key, k, i + 1)
  }

  /** The list of positions from i, unfolded at i. */
  lemma PositionsFromStep<T, K>(s: seq<T>, key: T -> K, k: K, i: nat)
    requires i < |s|
    ensures var ps, ps' := PositionsFrom(s, key, k, i), PositionsFrom(s, key, k, i + 1);
      if key(s[i]) == k then |ps| == |ps'| + 1 && ps[0] == i && forall t :: 0 < t < |ps| ==> ps[t] == ps'[t - 1]
      else ps == ps'
  {
  }

  /** The positions are listed in strictly ascending order. */
  lemma {:induction false} PositionsAscending<T, K>(s: seq<T>, key: T -> K, k: K, i: nat)
    requires i <= |s|
    ensures forall t1, t2 :: 0 <= t1 < t2 < |PositionsFrom(s, key, k, i)| ==>
      PositionsFrom(s, key, k, i)[t1] < PositionsFrom(s, key, k, i)[t2]
    decreases |s| - i
  {
    if i < |s| {
      PositionsAscending(s, key, k, i + 1);
      PositionsFromStep(s, key, k, i);
      var ps, ps' := PositionsFrom(s, key, k, i), PositionsFrom(s, key, k, i + 1);
      if key(s[i]) == k {
        forall t1, t2 | 0 <= t1 < t2 < |ps|
          ensures ps[t1] < ps[t2]
        {
          assert ps[t2] == ps'[t2 - 1];
          if t1 > 0 {
            assert ps[t1] == ps'[t1 - 1];
          }
        }
      }
    }
  }

  /** Every index from i on whose key is k is listed. */
  lemma {:induction false} PositionsComplete<T, K>(s: seq<T>, key: T -> K, k: K, i: nat)
    requires i <= |s|
    ensures forall j :: i <= j < |s| && key(s[j]) == k ==> j in PositionsFrom(s, key, k, i)
    decreases |s| - i
  {
    if i < |s| {
      PositionsComplete(s, key, k, i + 1);
      PositionsFromStep(s, key, k, i);
    }
  }

  /**
   * The group of k is exactly the elements at the positions whose key is k,
   * in ascending position order: grouping keeps the input order.
   */
  lemma {:induction false} FilterKeepsOrder<T, K>(s: seq<T>, key: T -> K, k: K, i: nat)
    requires i <= |s|
    ensures var ps := PositionsFrom(s, key, k, i);
      |Filter(s[i..], key, k)| == |ps| &&
      forall t :: 0 <= t < |ps| ==> Filter(s[i..], key, k)[t] == s[ps[t]]
    decreases |s| - i
  {
    if i < |s| {
      FilterKeepsOrder(s, key, k, i + 1);
      FilterSuffix(s, key, k, i);
      PositionsFromStep(s, key, k, i);
    }
  }

  /** The t-th element with key k is the element at the t-th position holding key k. */
  lemma FilterPositions<T, K>(s: seq<T>, key: T -> K, k: K)
    ensures var ps := PositionsFrom(s, key, k, 0);
      |Filter(s, key, k)| == |ps| &&
      forall t :: 0 <= t < |ps| ==> Filter(s, key, k)[t] == s[ps[t]]
  {
    FilterKeepsOrder(s, key, k, 0);
    assert s[0..] == s;
  }

  /** The distinct keys of s in order of first occurrence. */
  function KeysInOrder<T, K(==)>(s: seq<T>, key: T -> K): (ks: seq<K>)
    ensures Distinct(ks)
    ensures forall i :: 0 <= i < |s| ==> key(s[i]) in ks
    ensures forall j :: 0 <= j < |ks| ==> exists i :: 0 <= i < |s| && key(s[i]) == ks[j]
  {
    if s == [] then []
    else
      var p := KeysInOrder(s[..|s| - 1], key);
      var k := key(s[|s| - 1]);
      assert forall i :: 0 <= i < |s| - 1 ==> s[..|s| - 1][i] == s[i];
      if k in p then p else p + [k]
  }

  /**
   * The keys of every prefix are a prefix of the keys of the whole list:
   * a key is listed before another exactly when it first occurs earlier.
   */
  lemma {:induction false} KeysInOrderPrefix<T, K>(s: seq<T>, key: T -> K, n: nat)
    requires n <= |s|
    ensures KeysInOrder(s[..n], key) <= KeysInOrder(s, key)
    decreases |s|
  {
    if n == |s| {
      assert s[..n] == s;
    } else {
      KeysInOrderPrefix(s[..|s| - 1], key, n);
      assert s[..|s| - 1][..n] == s[..n];
    }
  }

  /** A key listed before another first occurs before every occurrence of the other. */
  lemma KeysFirstOccurrence<T, K>(s: seq<T>, key: T -> K, j1: nat, j2: nat, i: nat)
    requires j1 < j2 < |KeysInOrder(s, key)|
    requires i < |s| && key(s[i]) == KeysInOrder(s, key)[j2]
    ensures exists i' :: 0 <= i' < i && key(s[i']) == KeysInOrder(s, key)[j1]
  {
    var ks := KeysInOrder(s, key);
    var p := KeysInOrder(s[..i + 1], key);
    KeysInOrderPrefix(s, key, i + 1);
    assert s[..i + 1][i] == s[i];
    var j :| 0 <= j < |p| && p[j] == key(s[i]);
    assert ks[j] == ks[j2];
    assert j == j2;
    assert p[j1] == ks[j1];
    var i' :| 0 <= i' < i + 1 && key(s[..i + 1][i']) == p[j1];
    assert s[..i + 1][i'] == s[i'];
    assert i' != i;
  }

  /** A key carried by no element has an empty group. */
  lemma {:induction false} FilterNone<T, K>(s: seq<T>, key: T -> K, k: K)
    requires forall i :: 0 <= i < |s| ==> key(s[i]) != k
    ensures Filter(s, key, k) == []
    decreases |s|
  {
    if s != [] {
      FilterNone(s[1..], key, k);
    }
  }

  /** A key that does not occur has an empty group. */
  lemma FilterOutsideKeys<T, K>(s: seq<T>, key: T -> K, k: K)
    requires k !in KeysInOrder(s, key)
    ensures Filter(s, key, k) == []
  {
    FilterNone(s, key, k);
  }

  /** One step of the grouping loop on the key order: a new key goes last. */
  lemma KeysInOrderStep<T, K>(s: seq<T>, x: T, key: T -> K)
    ensures KeysInOrder(s + [x], key) ==
      var ks := KeysInOrder(s, key); if key(x) in ks then ks else ks + [key(x)]
  {
    assert (s + [x])[..|s|] == s;
  }

  /** The group of k after one more element: the old group, extended when the element has key k. */
  lemma FilterStep<T, K>(s: seq<T>, x: T, key: T -> K, k: K)
    ensures Filter(s + [x], key, k) ==
      if key(x) == k then Filter(s, key, k) + [x] else Filter(s, key, k)
  {
    FilterAppend(s, [x], key, k);
    assert Filter([x], key, k) == if key(x) == k then [x] else [];
  }

  /** The sum of size(m[k]) over the keys ks: how many items the groups of ks hold together. */
  function SumOver<K(==), V>(m: map<K, V>, size: V -> nat, ks: seq<K>): nat
    requires forall k :: k in ks ==> k in m
  {
    if ks == [] then 0 else size(m[ks[0]]) + SumOver(m, size, ks[1..])
  }

  lemma {:induction false} SumOverAppend<K, V>(m: map<K, V>, size: V -> nat, ks: seq<K>, k: K)
    requires forall k' :: k' in ks ==> k' in m
    requires k in m
    ensures SumOver(m, size, ks + [k]) == SumOver(m, size, ks) + size(m[k])
    decreases |ks|
  {
    if ks == [] {
      assert [k][1..] == [];
    } else {
      assert (ks + [k])[1..] == ks[1..] + [k];
      SumOverAppend(m, size, ks[1..], k);
    }
  }

  /** The sum of the group sizes over the key list ks. */
  function TotalSize<T(==), K(==)>(s: seq<T>, key: T -> K, ks: seq<K>): nat
  {
    if ks == [] then 0 else |Filter(s, key, ks[0])| + TotalSize(s, key, ks[1..])
  }

  function Occurrences<K(==)>(ks: seq<K>, k: K): nat
  {
    if ks == [] then 0 else (if ks[0] == k then 1 else 0) + Occurrences(ks[1..], k)
  }

  lemma {:induction false} OccurrencesDistinct<K>(ks: seq<K>, k: K)
    requires Distinct(ks)
    ensures Occurrences(ks, k) == if k in ks then 1 else 0
    decreases |ks|
  {
    if ks != [] {
      OccurrencesDistinct(ks[1..], k);
      assert ks == [ks[0]] + ks[1..];
    }
  }

  lemma {:induction false} TotalSizeCons<T, K>(x: T, s: seq<T>, key: T -> K, ks: seq<K>)
    ensures TotalSize([x] + s, key, ks) == TotalSize(s, key, ks) + Occurrences(ks, key(x))
    decreases |ks|
  {
    if ks != [] {
      TotalSizeCons(x, s, key, ks[1..]);
      assert ([x] + s)[1..] == s;
    }
  }

  /**
   * Grouping is a partition: over any duplicate-free list of keys that
   * covers every element's key, the group sizes add up to the input length.
   */
  lemma {:induction false} PartitionSize<T, K>(s: seq<T>, key: T -> K, ks: seq<K>)
    requires Distinct(ks)
    requires forall i :: 0 <= i < |s| ==> key(s[i]) in ks
    ensures TotalSize(s, key, ks) == |s|
    decreases |s|
  {
    if s == [] {
      TotalSizeEmpty(s, key, ks);
    } else {
      PartitionSize(s[1..], key, ks);
      assert [s[0]] + s[1..] == s;
      TotalSizeCons(s[0], s[1..], key, ks);
      OccurrencesDistinct(ks, key(s[0]));
    }
  }

  lemma {:induction false} TotalSizeEmpty<T, K>(s: seq<T>, key: T -> K, ks: seq<K>)
    requires s == []
    ensures TotalSize(s, key, ks) == 0
    decreases |ks|
  {
    if ks != [] {
      TotalSizeEmpty(s, key, ks[1..]);
    }
  }

  /** The keys in order of first occurrence partition the list. */
  lemma GroupsPartition<T, K>(s: seq<T>, key: T -> K)
    ensures TotalSize(s, key, KeysInOrder(s, key)) == |s|
  {
    PartitionSize(s, key, KeysInOrder(s, key));
  }
}
