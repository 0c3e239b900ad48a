/** The part of LINQ the extensions rely on: OrderBy and OrderByDescending,
    stable sorts by a key.  The key comparer (culture-sensitive string
    comparison in the source) is a parameter, a total preorder "le". */
module Linq {

  /** le is total and transitive: a comparer that can rank any two keys,
      possibly as equal. */
  ghost predicate TotalPreorder<K(!new)>(le: (K, K) -> bool) {
    && (forall a, b :: le(a, b) || le(b, a))
    && (forall a, b, c :: le(a, b) && le(b, c) ==> le(a, c))
  }

  /** Two keys the comparer ranks as equal. */
  predicate Equivalent<K>(le: (K, K) -> bool, a: K, b: K) {
    le(a, b) && le(b, a)
  }

  /** The reversed comparer, as OrderByDescending uses it. */
  function Flip<K>(le: (K, K) -> bool): (K, K) -> bool {
    (a, b) => le(b, a)
  }

  /** Keys do not decrease along s. */
  ghost predicate SortedBy<T, K>(s: seq<T>, key: T -> K, le: (K, K) -> bool) {
    forall i, j :: 0 <= i < j < |s| ==> le(key(s[i]), key(s[j]))
  }

  /** The elements of s whose key the comparer ranks equal to k, in their
      order in s.  A sort is stable when it leaves each such class as it
      was. */
  function KeyClass<T, K>(s: seq<T>, key: T -> K, le: (K, K) -> bool, k: K): seq<T> {
    if s == [] then []
    else (if Equivalent(le, key(s[0]), k) then [s[0]] else []) + KeyClass(s[1..], key, le, k)
  }

  /** Puts x before the first element whose key is not below x's. */
  function Insert<T, K>(x: T, s: seq<T>, key: T -> K, le: (K, K) -> bool): (r: seq<T>)
    ensures multiset(r) == multiset(s) + multiset{x}
  {
    if s == [] || le(key(x), key(s[0])) then [x] + s
    else
      assert s == [s[0]] + s[1..];
      [s[0]] + Insert(x, s[1..], key, le)
  }

  /** Enumerable.OrderBy(key): a permutation of s, sorted by key, and
      stable. */
  function SortBy<T, K(!new)>(s: seq<T>, key: T -> K, le: (K, K) -> bool): (r: seq<T>)
    requires TotalPreorder(le)
    ensures multiset(r) == multiset(s)
    ensures SortedBy(r, key, le)
    ensures forall k :: KeyClass(r, key, le, k) == KeyClass(s, key, le, k)
  {
    if s == [] then []
    else
      var rest := SortBy(s[1..], key, le);
      InsertSorted(s[0], rest, key, le);
      forall k ensures KeyClass(Insert(s[0], rest, key, le), key, le, k) == KeyClass(s, key, le, k) {
        StrictlyOrderedNotBothEquivalent(le, k);
        InsertKeyClass(s[0], rest, key, le, k);
      }
      assert s == [s[0]] + s[1..];
      Insert(s[0], rest, key, le)
  }

  lemma {:induction false} InsertSorted<T, K(!new)>(x: T, s: seq<T>, key: T -> K, le: (K, K) -> bool)
    requires TotalPreorder(le) && SortedBy(s, key, le)
    ensures SortedBy(Insert(x, s, key, le), key, le)
  {
    if s == [] || le(key(x), key(s[0])) {
    } else {
      InsertSorted(x, s[1..], key, le);
      var r := Insert(x, s, key, le);
      var t := Insert(x, s[1..], key, le);
      assert r == [s[0]] + t;
      HeadBelowInserted(x, s, key, le);
      forall i, j | 0 <= i < j < |r| ensures le(key(r[i]), key(r[j])) {
        if i == 0 {
          assert r[j] == t[j - 1];
          assert r[j] in multiset(t);
        }
      }
    }
  }

  /** When x goes after the head of a sorted sequence, the head ranks at or
      below everything the rest becomes. */
  lemma HeadBelowInserted<T, K(!new)>(x: T, s: seq<T>, key: T -> K, le: (K, K) -> bool)
    requires TotalPreorder(le) && SortedBy(s, key, le)
    requires s != [] && !le(key(x), key(s[0]))
    ensures forall y | y in multiset(Insert(x, s[1..], key, le)) :: le(key(s[0]), key(y))
  {
    var t := Insert(x, s[1..], key, le);
    forall y | y in multiset(t) ensures le(key(s[0]), key(y)) {
      if y != x {
        assert y in multiset(s[1..]);
        var j :| 0 <= j < |s[1..]| && s[1..][j] == y;
        assert s[j + 1] == y;
      }
    }
  }

  /** Inserting x adds x at the front of its own class: Insert passes only
      elements whose key ranks strictly below x's, and none of those is
      equivalent to x, so the relative order of equal keys stays that of
      the input. */
  lemma {:induction false} InsertKeyClass<T, K(!new)>(x: T, s: seq<T>, key: T -> K, le: (K, K) -> bool, k: K)
    requires forall a, b :: !le(a, b) ==> !(Equivalent(le, a, k) && Equivalent(le, b, k))
    ensures KeyClass(Insert(x, s, key, le), key, le, k)
         == (if Equivalent(le, key(x), k) then [x] else []) + KeyClass(s, key, le, k)
  {
    if s == [] || le(key(x), key(s[0])) {
      assert ([x] + s)[1..] == s;
    } else {
      InsertKeyClass(x, s[1..], key, le, k);
      var t := Insert(x, s[1..], key, le);
      var r := Insert(x, s, key, le);
      assert r == [s[0]] + t;
      assert r[1..] == t;
      var cx := if Equivalent(le, key(x), k) then [x] else [];
      var c0 := if Equivalent(le, key(s[0]), k) then [s[0]] else [];
      var rest := KeyClass(s[1..], key, le, k);
      assert KeyClass(r, key, le, k) == c0 + (cx + rest);
      assert KeyClass(s, key, le, k) == c0 + rest;
      if c0 == [] {
        assert c0 + (cx + rest) == cx + rest;
      } else {
        assert cx == [];
      }
    }
  }

  /** Keys in strict order are never both equivalent to a third. */
  lemma StrictlyOrderedNotBothEquivalent<K(!new)>(le: (K, K) -> bool, k: K)
    requires TotalPreorder(le)
    ensures forall a, b :: !le(a, b) ==> !(Equivalent(le, a, k) && Equivalent(le, b, k))
  {
  }

  /** Equivalence classes are the same under the reversed comparer. */
  lemma {:induction false} KeyClassFlip<T, K>(s: seq<T>, key: T -> K, le: (K, K) -> bool, k: K)
    ensures KeyClass(s, key, Flip(le), k) == KeyClass(s, key, le, k)
  {
    if s != [] {
      KeyClassFlip(s[1..], key, le, k);
    }
  }

  lemma FlipTotalPreorder<K(!new)>(le: (K, K) -> bool)
    requires TotalPreorder(le)
    ensures TotalPreorder(Flip(le))
  {
  }

  /** Enumerable.OrderByDescending(key): a permutation of s whose keys do
      not increase, keeping equal keys in their input order. */
  function SortByDescending<T, K(!new)>(s: seq<T>, key: T -> K, le: (K, K) -> bool): (r: seq<T>)
    requires TotalPreorder(le)
    ensures multiset(r) == multiset(s)
    ensures forall i, j :: 0 <= i < j < |r| ==> le(key(r[j]), key(r[i]))
    ensures forall k :: KeyClass(r, key, le, k) == KeyClass(s, key, le, k)
  {
    FlipTotalPreorder(le);
    var r := SortBy(s, key, Flip(le));
    forall k ensures KeyClass(r, key, le, k) == KeyClass(s, key, le, k) {
      KeyClassFlip(r, key, le, k);
      KeyClassFlip(s, key, le, k);
    }
    r
  }
}
