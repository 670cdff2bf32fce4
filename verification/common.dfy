/** Vocabulary shared by the monitorlib model: how a Python call ends
    (a value, `False`, or an exception) and a few facts about sequences. */
module Common {

  /** A Python result that is either `False` (None) or a proper value:
      the `test and value` idiom that monitorlib uses throughout. */
  datatype Option<+T> = None | Some(value: T)

  /** The Python exceptions the modelled code raises on string inputs. */
  datatype Exception = IndexError

  /** How a Python call ends: with the value it returns, or the exception it raises. */
  datatype Result<+T> = Returns(value: T) | Raises(exc: Exception)

  function Min(a: int, b: int): int
  {
    if a <= b then a else b
  }

  /** Python's `reversed`. */
  function Reverse<T>(s: seq<T>): (r: seq<T>)
    ensures |r| == |s|
    ensures forall i :: 0 <= i < |s| ==> r[i] == s[|s| - 1 - i]
  {
    if s == [] then [] else Reverse(s[1..]) + [s[0]]
  }

  lemma ReversePermutes<T>(s: seq<T>)
    ensures multiset(Reverse(s)) == multiset(s)
  {
    if s != [] {
      ReversePermutes(s[1..]);
      assert s == [s[0]] + s[1..];
    }
  }

  /** A list comprehension `[f(x) for x in s]`. */
  function Map<A, B>(f: A -> B, s: seq<A>): (r: seq<B>)
    ensures |r| == |s|
    ensures forall i :: 0 <= i < |s| ==> r[i] == f(s[i])
  {
    if s == [] then [] else [f(s[0])] + Map(f, s[1..])
  }

  lemma RemoveAt<T>(b: seq<T>, j: nat)
    requires j < |b|
    ensures multiset(b) == multiset(b[..j] + b[j + 1..]) + multiset{b[j]}
  {
    assert b == b[..j] + [b[j]] + b[j + 1..];
  }

  lemma MapRemoveAt<A, B>(f: A -> B, b: seq<A>, j: nat)
    requires j < |b|
    ensures multiset(Map(f, b)) == multiset(Map(f, b[..j] + b[j + 1..])) + multiset{f(b[j])}
  {
    var m := Map(f, b);
    var c := b[..j] + b[j + 1..];
    var mc := Map(f, c);
    var rest := m[..j] + m[j + 1..];
    assert |mc| == |rest|;
    forall i | 0 <= i < |mc|
      ensures mc[i] == rest[i]
    {
      if i < j {
        assert c[i] == b[i] && rest[i] == m[i];
      } else {
        assert c[i] == b[i + 1] && rest[i] == m[i + 1];
      }
    }
    assert mc == rest;
    RemoveAt(m, j);
  }

  lemma MultisetCancel<T>(m1: multiset<T>, m2: multiset<T>, x: T)
    requires m1 + multiset{x} == m2 + multiset{x}
    ensures m1 == m2
  {
    forall y ensures m1[y] == m2[y] {
      assert (m1 + multiset{x})[y] == (m2 + multiset{x})[y];
    }
  }

  /** Taking the first element of `a` out of a permutation `b` of `a`
      leaves a permutation of the rest of `a`. */
  lemma RemoveFirstPermutes<T>(a: seq<T>, b: seq<T>, j: nat)
    requires multiset(a) == multiset(b) && a != [] && j < |b| && b[j] == a[0]
    ensures multiset(a[1..]) == multiset(b[..j] + b[j + 1..])
  {
    RemoveAt(b, j);
    RemoveAt(a, 0);
    assert a[..0] + a[1..] == a[1..];
    MultisetCancel(multiset(a[1..]), multiset(b[..j] + b[j + 1..]), a[0]);
  }

  /** Mapping a function over two permutations of each other gives two
      permutations of each other. */
  lemma {:induction false} MapPermutes<A, B>(f: A -> B, a: seq<A>, b: seq<A>)
    requires multiset(a) == multiset(b)
    ensures multiset(Map(f, a)) == multiset(Map(f, b))
    decreases |a|
  {
    if a == [] {
      assert |multiset(b)| == 0;
    } else {
      assert a[0] in multiset(a);
      var j := IndexOf(a[0], b);
      var rest := b[..j] + b[j + 1..];
      RemoveFirstPermutes(a, b, j);
      MapPermutes(f, a[1..], rest);
      MapRemoveAt(f, b, j);
      MapRemoveAt(f, a, 0);
      assert a[..0] + a[1..] == a[1..];
    }
  }

  /** `a` is `b` with some elements left out, the rest kept in order. */
  ghost predicate IsSubsequence<T>(a: seq<T>, b: seq<T>)
    decreases |b|
  {
    || a == []
    || (&& b != []
        && ((a[0] == b[0] && IsSubsequence(a[1..], b[1..])) || IsSubsequence(a, b[1..])))
  }

  /** A position at which an element of a sequence's multiset occurs. */
  lemma IndexOf<T>(x: T, s: seq<T>) returns (i: nat)
    requires x in multiset(s)
    ensures i < |s| && s[i] == x
  {
    assert x in s;
    i :| 0 <= i < |s| && s[i] == x;
  }
}
