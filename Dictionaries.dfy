/** The operations of System.Collections.Generic.Dictionary that the
    extensions call.  The dictionary's contents are a finite map; the order
    in which it enumerates them is the hash table's and is left open. */
module Dictionaries {
  import opened Wrappers

  class Dictionary<K(==), V> {
    var entries: map<K, V>

    constructor ()
      ensures entries == map[]
    {
      entries := map[];
    }

    /** TryGetValue: the value stored under key, if there is one. */
    function TryGetValue(key: K): (r: Option<V>)
      reads this
      ensures r.Some? <==> key in entries
      ensures r.Some? ==> r.value == entries[key]
    {
      if key in entries then Some(entries[key]) else None
    }

    method Remove(key: K)
      modifies this
      ensures entries == old(entries) - {key}
    {
      entries := entries - {key};
    }

    /** Add throws ArgumentException when the key is already present. */
    method Add(key: K, value: V)
      requires key !in entries
      modifies this
      ensures entries == old(entries)[key := value]
    {
      entries := entries[key := value];
    }

    /** Enumerating the dictionary: every entry exactly once, in an order
        the model leaves unspecified. */
    method Enumerate() returns (pairs: seq<(K, V)>)
      ensures DistinctKeys(pairs)
      ensures forall i :: 0 <= i < |pairs| ==> pairs[i].0 in entries && entries[pairs[i].0] == pairs[i].1
      ensures forall k :: k in entries ==> exists i :: 0 <= i < |pairs| && pairs[i].0 == k
      ensures |pairs| == |entries|
      ensures MapOf(pairs) == entries
    {
      pairs := [];
      var remaining := entries.Keys;
      while remaining != {}
        invariant remaining <= entries.Keys
        invariant |pairs| + |remaining| == |entries|
        invariant DistinctKeys(pairs)
        invariant forall i :: 0 <= i < |pairs| ==>
          pairs[i].0 in entries && entries[pairs[i].0] == pairs[i].1 && pairs[i].0 !in remaining
        invariant forall k :: k in entries ==> k in remaining || exists i :: 0 <= i < |pairs| && pairs[i].0 == k
        decreases |remaining|
      {
        var k :| k in remaining;
        var visited := pairs;
        pairs := pairs + [(k, entries[k])];
        remaining := remaining - {k};
        assert pairs[|visited|].0 == k;
        assert forall i :: 0 <= i < |visited| ==> pairs[i] == visited[i];
      }
      EnumerationMap(pairs, entries);
    }
  }

  /** No key occurs twice in a sequence of pairs. */
  predicate DistinctKeys<K(==), V>(pairs: seq<(K, V)>) {
    forall i, j :: 0 <= i < j < |pairs| ==> pairs[i].0 != pairs[j].0
  }

  /** The map that adding the pairs one after another produces
      (Enumerable.ToDictionary). */
  function MapOf<K(==), V>(pairs: seq<(K, V)>): map<K, V> {
    if pairs == [] then map[]
    else MapOf(pairs[..|pairs| - 1])[pairs[|pairs| - 1].0 := pairs[|pairs| - 1].1]
  }

  /** With distinct keys, MapOf holds exactly the pairs of the sequence. */
  lemma {:induction false} MapOfPairs<K, V>(pairs: seq<(K, V)>)
    requires DistinctKeys(pairs)
    ensures forall k :: k in MapOf(pairs) ==> exists i :: 0 <= i < |pairs| && pairs[i].0 == k
    ensures forall i :: 0 <= i < |pairs| ==> pairs[i].0 in MapOf(pairs) && MapOf(pairs)[pairs[i].0] == pairs[i].1
    ensures |MapOf(pairs)| == |pairs|
  {
    if pairs != [] {
      var init := pairs[..|pairs| - 1];
      MapOfPairs(init);
      assert forall i :: 0 <= i < |init| ==> init[i] == pairs[i];
      assert pairs[|pairs| - 1].0 !in MapOf(init);
    }
  }

  /** A sequence that lists every entry of m once, and nothing else, adds
      up to m. */
  lemma EnumerationMap<K, V>(pairs: seq<(K, V)>, m: map<K, V>)
    requires DistinctKeys(pairs)
    requires forall i :: 0 <= i < |pairs| ==> pairs[i].0 in m && m[pairs[i].0] == pairs[i].1
    requires forall k :: k in m ==> exists i :: 0 <= i < |pairs| && pairs[i].0 == k
    ensures MapOf(pairs) == m
  {
    MapOfPairs(pairs);
    forall k | k in m ensures k in MapOf(pairs) && MapOf(pairs)[k] == m[k] {
      var i :| 0 <= i < |pairs| && pairs[i].0 == k;
    }
    forall k | k in MapOf(pairs) ensures k in m {
      var i :| 0 <= i < |pairs| && pairs[i].0 == k;
    }
  }

  /** Reordering pairs with distinct keys gives the same map. */
  lemma PermutationSameMap<K, V>(a: seq<(K, V)>, b: seq<(K, V)>)
    requires multiset(a) == multiset(b) && DistinctKeys(a)
    ensures DistinctKeys(b) && MapOf(b) == MapOf(a)
  {
    PermutationKeepsDistinctKeys(a, b);
    MapOfPairs(a);
    forall i | 0 <= i < |b| ensures b[i].0 in MapOf(a) && MapOf(a)[b[i].0] == b[i].1 {
      assert b[i] in multiset(a);
      var j :| 0 <= j < |a| && a[j] == b[i];
    }
    forall k | k in MapOf(a) ensures exists i :: 0 <= i < |b| && b[i].0 == k {
      assert exists j :: 0 <= j < |a| && a[j].0 == k;
      var j :| 0 <= j < |a| && a[j].0 == k;
      assert a[j] in multiset(b);
      var i :| 0 <= i < |b| && b[i] == a[j];
    }
    EnumerationMap(b, MapOf(a));
  }

  /** An element present twice in a sequence is counted twice. */
  lemma TwiceCounted<T>(s: seq<T>, i: int, j: int)
    requires 0 <= i < j < |s| && s[i] == s[j]
    ensures multiset(s)[s[i]] >= 2
  {
    assert s == s[..i] + [s[i]] + s[i + 1..j] + [s[j]] + s[j + 1..];
  }

  /** An element present at only one index is counted once. */
  lemma OnceCounted<T>(s: seq<T>, i: int)
    requires 0 <= i < |s|
    requires forall j :: 0 <= j < |s| && j != i ==> s[j] != s[i]
    ensures multiset(s)[s[i]] == 1
  {
    assert s == s[..i] + [s[i]] + s[i + 1..];
    var before, after := s[..i], s[i + 1..];
    assert forall j :: 0 <= j < |before| ==> before[j] != s[i];
    assert forall j :: 0 <= j < |after| ==> after[j] == s[i + 1 + j];
    assert s[i] !in before && s[i] !in after;
  }

  /** Reordering a sequence of pairs keeps its keys distinct. */
  lemma PermutationKeepsDistinctKeys<K, V>(a: seq<(K, V)>, b: seq<(K, V)>)
    requires multiset(a) == multiset(b) && DistinctKeys(a)
    ensures DistinctKeys(b)
  {
    forall i, j | 0 <= i < j < |b| ensures b[i].0 != b[j].0 {
      if b[i].0 == b[j].0 {
        assert b[i] in multiset(a) && b[j] in multiset(a);
        var ia :| 0 <= ia < |a| && a[ia] == b[i];
        var ja :| 0 <= ja < |a| && a[ja] == b[j];
        assert ia == ja;
        TwiceCounted(b, i, j);
        OnceCounted(a, ia);
        assert false;
      }
    }
  }
}
