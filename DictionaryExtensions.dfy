/** Extension methods on Dictionary: visiting every entry, insert-or-update,
    counting, re-ordering by key, and dictionaries pre-filled with a zero
    for every hour of a day or every second of a span. */
module DictionaryExtensions {
  import opened Wrappers
  import opened Numerics
  import opened Calendar
  import opened Linq
  import opened Dictionaries
  import opened DateTimeExtensions

  /** ForEach: the action runs once for every entry, with its key and value,
      in the dictionary's enumeration order; for a null dictionary it never
      runs.  The calls are returned in the order they were made. */
  method ForEach<K, V>(dictionary: Dictionary?<K, V>) returns (calls: seq<(K, V)>)
    ensures dictionary == null ==> calls == []
    ensures dictionary != null ==>
      && DistinctKeys(calls)
      && |calls| == |dictionary.entries|
      && MapOf(calls) == dictionary.entries
  {
    calls := [];
    if dictionary == null {
      return;
    }
    var entries := dictionary.Enumerate();
    for i := 0 to |entries|
      invariant calls == entries[..i]
    {
      calls := calls + [entries[i]];
    }
    assert entries[..|entries|] == entries;
  }

  /** AddOrUpdate: afterwards key maps to value and every other entry is as
      it was; a null dictionary is left alone. */
  method AddOrUpdate<K, V>(dictionary: Dictionary?<K, V>, key: K, value: V)
    modifies dictionary
    ensures dictionary != null ==> dictionary.entries == old(dictionary.entries)[key := value]
  {
    if dictionary == null {
      return;
    }
    var temp := dictionary.TryGetValue(key);
    if temp.Some? {
      dictionary.Remove(key);
    }
    dictionary.Add(key, value);
  }

  // ---------------------------------------------------------------------
  // Counting
  // ---------------------------------------------------------------------

  /** The map after AddOrIncrement(key, value): the stored count (0 when
      the key is new) plus value, in unchecked 32-bit arithmetic. */
  function Incremented<K>(m: map<K, Int32>, key: K, value: Int32): map<K, Int32> {
    m[key := Wrap32(value + (if key in m then m[key] else 0))]
  }

  /** AddOrIncrement.  There is no null check: a null dictionary throws on
      TryGetValue, so the model requires a dictionary. */
  method AddOrIncrement<K>(dictionary: Dictionary<K, Int32>, key: K, value: Int32)
    modifies dictionary
    ensures dictionary.entries == Incremented(old(dictionary.entries), key, value)
  {
    var temp: Int32 := 0;
    var found := dictionary.TryGetValue(key);
    if found.Some? {
      temp := found.value;
      dictionary.Remove(key);
    }
    dictionary.Add(key, Wrap32(value + temp));
  }

  /** Two increments of one key amount to one increment by their wrapped
      sum; the other keys are untouched. */
  lemma IncrementedTwice<K>(m: map<K, Int32>, key: K, a: Int32, b: Int32)
    ensures Incremented(Incremented(m, key, a), key, b) == Incremented(m, key, Wrap32(a + b))
  {
    var stored: int := if key in m then m[key] else 0;
    WrapAddTwice(stored, a, b);
  }

  /** The map after AddOrIncrement(k, 1) for every k of keys in turn,
      starting from an empty dictionary. */
  function Tally<K>(keys: seq<K>): map<K, Int32> {
    if keys == [] then map[]
    else Incremented(Tally(keys[..|keys| - 1]), keys[|keys| - 1], 1)
  }

  /** Counting with AddOrIncrement: every key seen is present, holding the
      number of times it occurred, wrapped to 32 bits. */
  lemma {:induction false} TallyCounts<K>(keys: seq<K>)
    ensures forall k :: k in Tally(keys) <==> k in keys
    ensures forall k :: k in Tally(keys) ==> Tally(keys)[k] == Wrap32(multiset(keys)[k])
  {
    if keys != [] {
      var init, last := keys[..|keys| - 1], keys[|keys| - 1];
      TallyCounts(init);
      assert keys == init + [last];
      forall k | k in Tally(keys) ensures Tally(keys)[k] == Wrap32(multiset(keys)[k]) {
        if k == last {
          WrapAdd(multiset(init)[k], 1);
        }
      }
    }
  }

  /** A count already at int.MaxValue wraps round to int.MinValue. */
  lemma IncrementOverflows<K>(key: K)
    ensures Incremented(map[key := MaxInt32], key, 1)[key] == MinInt32
  {
    assert Wrap32(1 + MaxInt32) == ((1 + MaxInt32) - MinInt32) % Modulus32 + MinInt32;
  }

  // ---------------------------------------------------------------------
  // Ordering
  // ---------------------------------------------------------------------

  function PairKey<K, V>(pair: (K, V)): K {
    pair.0
  }

  /** The pairs OrderBy(x => x.Key) yields for an enumeration: sorted by
      key, stable, and still adding up to the same map. */
  lemma OrderedPairs<K(!new), V>(pairs: seq<(K, V)>, le: (K, K) -> bool)
    requires TotalPreorder(le) && DistinctKeys(pairs)
    ensures var sorted := SortBy(pairs, PairKey, le);
      && SortedBy(sorted, PairKey, le)
      && DistinctKeys(sorted)
      && MapOf(sorted) == MapOf(pairs)
  {
    PermutationSameMap(pairs, SortBy(pairs, PairKey, le));
  }

  /** Enumerable.ToDictionary: a new dictionary, each pair added in turn;
      Add throws on a repeated key. */
  method ToDictionary<K, V>(pairs: seq<(K, V)>) returns (r: Dictionary<K, V>)
    requires DistinctKeys(pairs)
    ensures fresh(r) && r.entries == MapOf(pairs)
  {
    r := new Dictionary();
    for i := 0 to |pairs|
      invariant r.entries == MapOf(pairs[..i])
    {
      NextKeyIsNew(pairs, i);
      r.Add(pairs[i].0, pairs[i].1);
    }
    assert pairs[..|pairs|] == pairs;
  }

  /** Adding the pairs in turn never meets a key twice: the next key is not
      yet in the map the earlier pairs made. */
  lemma NextKeyIsNew<K, V>(pairs: seq<(K, V)>, i: int)
    requires DistinctKeys(pairs) && 0 <= i < |pairs|
    ensures pairs[i].0 !in MapOf(pairs[..i])
    ensures MapOf(pairs[..i + 1]) == MapOf(pairs[..i])[pairs[i].0 := pairs[i].1]
  {
    var init := pairs[..i];
    assert DistinctKeys(init);
    MapOfPairs(init);
    assert pairs[..i + 1][..i] == init;
  }

  /** OrderByKey: a new dictionary holding the same entries, added in
      ascending key order under the comparer le.  A null dictionary throws
      in OrderBy, so the model requires one. */
  method OrderByKey<K(!new), V>(dictionary: Dictionary<K, V>, le: (K, K) -> bool) returns (r: Dictionary<K, V>)
    requires TotalPreorder(le)
    ensures fresh(r) && r.entries == dictionary.entries
  {
    var pairs := dictionary.Enumerate();
    var sorted := SortBy(pairs, PairKey, le);
    OrderedPairs(pairs, le);
    r := ToDictionary(sorted);
  }

  // ---------------------------------------------------------------------
  // Pre-filled dictionaries
  // ---------------------------------------------------------------------

  /** The callback the builders hand to the enumerators,
      dictionary.Add(x, zero), run on each argument in turn. */
  method AddEach<K, V>(dictionary: Dictionary<K, V>, keys: seq<K>, value: V)
    requires dictionary.entries == map[]
    requires forall i, j :: 0 <= i < j < |keys| ==> keys[i] != keys[j]
    modifies dictionary
    ensures forall k :: k in dictionary.entries <==> k in keys
    ensures forall k :: k in dictionary.entries ==> dictionary.entries[k] == value
    ensures |dictionary.entries| == |keys|
  {
    for i := 0 to |keys|
      invariant forall k :: k in dictionary.entries <==> k in keys[..i]
      invariant forall k :: k in dictionary.entries ==> dictionary.entries[k] == value
      invariant |dictionary.entries| == i
    {
      assert keys[i] !in keys[..i];
      dictionary.Add(keys[i], value);
      assert keys[..i + 1] == keys[..i] + [keys[i]];
    }
    assert keys[..|keys|] == keys;
  }

  /** A point is an argument of an evenly stepped enumeration exactly when
      it lies between s and last, a whole number of steps from s. */
  lemma SteppedCallAt(calls: seq<int>, s: int, step: int, last: int, t: int)
    requires step > 0 && |calls| >= 1
    requires forall k :: 0 <= k < |calls| ==> calls[k] == s + k * step
    requires s + (|calls| - 1) * step <= last < s + |calls| * step
    ensures t in calls <==> s <= t <= last && (t - s) % step == 0
  {
    if t in calls {
      var k :| 0 <= k < |calls| && calls[k] == t;
      DivModUnique(t - s, step, k, 0);
      MulOrder(k, |calls| - 1, step);
    }
    if s <= t <= last && (t - s) % step == 0 {
      var k := (t - s) / step;
      assert t - s == k * step;
      MulOrder(|calls|, k, step);
      MulOrder(0, k, step);
      assert calls[k] == t;
    }
  }

  /** The arguments of an evenly stepped enumeration increase, so none is
      repeated. */
  lemma SteppedCallsIncrease(calls: seq<int>, s: int, step: int)
    requires step > 0
    requires forall k :: 0 <= k < |calls| ==> calls[k] == s + k * step
    ensures forall i, j :: 0 <= i < j < |calls| ==> calls[i] < calls[j]
  {
    forall i, j | 0 <= i < j < |calls| ensures calls[i] < calls[j] {
      MulOrder(j, i, step);
    }
  }

  /** The arguments of an enumeration stepping from a multiple of step are
      the multiples of step from s up to last, each once. */
  lemma SteppedCalls(calls: seq<int>, s: int, step: int, last: int)
    requires step > 0 && |calls| >= 1 && s % step == 0
    requires forall k :: 0 <= k < |calls| ==> calls[k] == s + k * step
    requires s + (|calls| - 1) * step <= last < s + |calls| * step
    ensures forall t :: t in calls <==> s <= t <= last && t % step == 0
    ensures forall i, j :: 0 <= i < j < |calls| ==> calls[i] < calls[j]
  {
    forall t ensures t in calls <==> s <= t <= last && t % step == 0 {
      SteppedCallAt(calls, s, step, last, t);
      OffsetFromMultiple(s, t, step);
    }
    SteppedCallsIncrease(calls, s, step);
  }

  /** Whole multiples of step away from a multiple of step are the
      multiples of step. */
  lemma OffsetFromMultiple(s: int, t: int, step: int)
    requires step > 0 && s % step == 0
    ensures (t - s) % step == 0 <==> t % step == 0
  {
    DivModUnique(t - s, step, t / step - s / step, t % step);
  }

  /** NewEmptyIntegerDictionaryForEveryHourOfDay: a new dictionary (the one
      passed in is ignored) with 0 for midnight of day, every hour after it
      and the next midnight: 25 keys.  ForEachHourInDay computes one hour
      past the next midnight, which must exist. */
  method NewEmptyIntegerDictionaryForEveryHourOfDay(dictionary: Dictionary?<DateTime, Int32>, day: DateTime)
    returns (r: Dictionary<DateTime, Int32>)
    requires day - day % TicksPerDay + TicksPerDay + TicksPerHour <= MaxTicks
    ensures fresh(r)
    ensures forall t :: t in r.entries <==>
      BeginOfDay(day) <= t <= BeginOfDay(day) + TicksPerDay && t % TicksPerHour == 0
    ensures forall t :: t in r.entries ==> r.entries[t] == 0
    ensures |r.entries| == 25
  {
    var start := BeginOfDay(day);
    DivModUnique(start, TicksPerDay, Days(day), 0);
    r := new Dictionary();
    var hours := ForEachHourInDay(start);
    HourlyKeys(start, hours);
    AddEach(r, hours, 0);
    assert forall t :: t in r.entries <==> t in hours;
  }

  /** The instants ForEachHourInDay visits from a midnight: the whole hours
      from it to the next midnight, each once. */
  lemma HourlyKeys(start: DateTime, hours: seq<DateTime>)
    requires start % TicksPerDay == 0 && start + TicksPerDay <= MaxTicks
    requires |hours| == 25
    requires forall k :: 0 <= k < |hours| ==> hours[k] == start + k * TicksPerHour
    ensures forall t :: t in hours <==> start <= t <= start + TicksPerDay && t % TicksPerHour == 0
    ensures forall i, j :: 0 <= i < j < |hours| ==> hours[i] != hours[j]
  {
    DivModUnique(start, TicksPerHour, start / TicksPerDay * 24, 0);
    SteppedCalls(hours, start, TicksPerHour, start + TicksPerDay);
  }

  /** NewEmptyIntegerDictionaryForEverySecondInTimespan: both ends are cut
      to the whole second (new DateTime(Y, M, D, h, m, s)); a new dictionary
      holds 0 for every whole second from the one to the other, and is
      empty when the end comes first.  ForEachSecondInTimespan computes one
      second past the end, which must exist. */
  method NewEmptyIntegerDictionaryForEverySecondInTimespan(dictionary: Dictionary?<DateTime, Int32>, start: DateTime, end: DateTime)
    returns (r: Dictionary<DateTime, Int32>)
    requires end - end % TicksPerSecond < start - start % TicksPerSecond || end - end % TicksPerSecond + TicksPerSecond <= MaxTicks
    ensures fresh(r)
    ensures forall t :: t in r.entries <==>
      BeginOfSecond(start) <= t <= BeginOfSecond(end) && t % TicksPerSecond == 0
    ensures forall t :: t in r.entries ==> r.entries[t] == 0
    ensures |r.entries| ==
      if BeginOfSecond(end) < BeginOfSecond(start) then 0
      else (BeginOfSecond(end) - BeginOfSecond(start)) / TicksPerSecond + 1
  {
    r := new Dictionary();
    var s := BeginOfSecond(start);
    var e := BeginOfSecond(end);
    if e < s {
      return;
    }
    WholeSecond(start);
    WholeSecond(end);
    WholeSecondSpan(s, e);
    var seconds := ForEachSecondInTimespan(s, e);
    SteppedCalls(seconds, s, TicksPerSecond, e);
    AddEach(r, seconds, 0);
    assert forall t :: t in r.entries <==> t in seconds;
  }

  lemma WholeSecond(t: DateTime)
    ensures BeginOfSecond(t) % TicksPerSecond == 0
  {
    DivModUnique(BeginOfSecond(t), TicksPerSecond, t / TicksPerSecond, 0);
  }

  /** Between two whole seconds s <= e, ForEachSecondInTimespan visits
      s up to e and computes one step more, e plus a second. */
  lemma WholeSecondSpan(s: DateTime, e: DateTime)
    requires s % TicksPerSecond == 0 && e % TicksPerSecond == 0 && s <= e
    ensures s + (SecondsVisited(s, e) - 1) * TicksPerSecond == e
    ensures s + SecondsVisited(s, e) * TicksPerSecond == e + TicksPerSecond
  {
    OffsetFromMultiple(s, e, TicksPerSecond);
  }

  /** NewEmptyDecimalDictionaryForEverySecondInTimespan: as the integer
      version, but the ends are not cut to the second, so the keys keep
      start's fraction of a second; decimal 0 is the value. */
  method NewEmptyDecimalDictionaryForEverySecondInTimespan(dictionary: Dictionary?<DateTime, real>, start: DateTime, end: DateTime)
    returns (r: Dictionary<DateTime, real>)
    requires end < start || start + SecondsVisited(start, end) * TicksPerSecond <= MaxTicks
    ensures fresh(r)
    ensures forall t :: t in r.entries <==> start <= t <= end && (t - start) % TicksPerSecond == 0
    ensures forall t :: t in r.entries ==> r.entries[t] == 0.0
    ensures |r.entries| == if end < start then 0 else (end - start) / TicksPerSecond + 1
  {
    r := new Dictionary();
    if end < start {
      return;
    }
    var seconds := ForEachSecondInTimespan(start, end);
    forall t ensures t in seconds <==> start <= t <= end && (t - start) % TicksPerSecond == 0 {
      SteppedCallAt(seconds, start, TicksPerSecond, end, t);
    }
    SteppedCallsIncrease(seconds, start, TicksPerSecond);
    AddEach(r, seconds, 0.0);
    assert forall t :: t in r.entries <==> t in seconds;
  }
}
