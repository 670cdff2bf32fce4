/** A stable sort by a numeric key, in the way Python's `sorted` orders a
    list with a key function: ascending by key, and elements with equal
    keys in their original order. */
module Sorting {

  predicate Ascending<T>(key: T -> nat, s: seq<T>)
  {
    forall i, j :: 0 <= i < j < |s| ==> key(s[i]) <= key(s[j])
  }

  /** `t` placed before the first element whose key is not below its own. */
  function InsertBy<T>(key: T -> nat, t: T, s: seq<T>): (r: seq<T>)
    ensures |r| == |s| + 1
    ensures r[0] == t || (s != [] && r[0] == s[0])
    ensures multiset(r) == multiset(s) + multiset{t}
  {
    if s == [] then [t]
    else if key(t) <= key(s[0]) then [t] + s
    else
      assert s == [s[0]] + s[1..];
      [s[0]] + InsertBy(key, t, s[1..])
  }

  lemma {:induction false} InsertAscending<T>(key: T -> nat, t: T, s: seq<T>)
    requires Ascending(key, s)
    ensures Ascending(key, InsertBy(key, t, s))
    decreases |s|
  {
    if s != [] && key(t) > key(s[0]) {
      var rest := InsertBy(key, t, s[1..]);
      InsertAscending(key, t, s[1..]);
      assert InsertBy(key, t, s) == [s[0]] + rest;
      assert forall k :: 0 <= k < |rest| ==> key(rest[0]) <= key(rest[k]);
    }
  }

  /** Insertion sort: stable, ascending by key, a permutation of its input. */
  function SortBy<T>(key: T -> nat, s: seq<T>): (r: seq<T>)
    ensures |r| == |s|
    ensures Ascending(key, r)
    ensures multiset(r) == multiset(s)
  {
    if s == [] then []
    else
      assert s == [s[0]] + s[1..];
      var sortedRest := SortBy(key, s[1..]);
      InsertAscending(key, s[0], sortedRest);
      InsertBy(key, s[0], sortedRest)
  }

  /** The elements with key `k`, in order. */
  function OfKey<T>(key: T -> nat, k: nat, s: seq<T>): seq<T>
  {
    if s == [] then []
    else (if key(s[0]) == k then [s[0]] else []) + OfKey(key, k, s[1..])
  }

  lemma OfKeyCons<T>(key: T -> nat, k: nat, x: T, s: seq<T>)
    ensures OfKey(key, k, [x] + s) == (if key(x) == k then [x] else []) + OfKey(key, k, s)
  {
    assert ([x] + s)[1..] == s;
  }

  lemma InsertBySkips<T>(key: T -> nat, t: T, s: seq<T>)
    requires s != [] && key(s[0]) < key(t)
    ensures InsertBy(key, t, s) == [s[0]] + InsertBy(key, t, s[1..])
  {
  }

  /** Two pieces of which one is empty can trade places. */
  lemma SwapEmpty<T>(first: seq<T>, here: seq<T>, x: seq<T>)
    requires first == [] || here == []
    ensures first + (here + x) == here + (first + x)
  {
    if first == [] {
      assert first + (here + x) == here + x;
      assert first + x == x;
    } else {
      assert here + x == x;
      assert here + (first + x) == first + x;
    }
  }

  /** Inserting past an element of lower key than the inserted one. */
  lemma InsertPastLower<T>(key: T -> nat, k: nat, t: T, s: seq<T>)
    requires s != [] && key(s[0]) < key(t)
    requires OfKey(key, k, InsertBy(key, t, s[1..]))
          == (if key(t) == k then [t] else []) + OfKey(key, k, s[1..])
    ensures OfKey(key, k, InsertBy(key, t, s))
         == (if key(t) == k then [t] else []) + OfKey(key, k, s)
  {
    var rest := InsertBy(key, t, s[1..]);
    var x := OfKey(key, k, s[1..]);
    var here: seq<T> := if key(t) == k then [t] else [];
    var first: seq<T> := if key(s[0]) == k then [s[0]] else [];
    InsertBySkips(key, t, s);
    OfKeyCons(key, k, s[0], rest);
    assert OfKey(key, k, InsertBy(key, t, s)) == first + (here + x);
    assert OfKey(key, k, s) == first + x;
    SwapEmpty(first, here, x);
  }

  /** Insertion puts `t` ahead of every element with its key. */
  lemma {:induction false} InsertOfKey<T>(key: T -> nat, k: nat, t: T, s: seq<T>)
    ensures OfKey(key, k, InsertBy(key, t, s)) == (if key(t) == k then [t] else []) + OfKey(key, k, s)
    decreases |s|
  {
    if s == [] || key(t) <= key(s[0]) {
      OfKeyCons(key, k, t, s);
    } else {
      InsertOfKey(key, k, t, s[1..]);
      InsertPastLower(key, k, t, s);
    }
  }

  /** The sort is stable: the elements of each key keep their order. */
  lemma {:induction false} SortByStable<T>(key: T -> nat, k: nat, s: seq<T>)
    ensures OfKey(key, k, SortBy(key, s)) == OfKey(key, k, s)
    decreases |s|
  {
    if s != [] {
      SortByStable(key, k, s[1..]);
      InsertOfKey(key, k, s[0], SortBy(key, s[1..]));
    }
  }
}
