/**
 The bounded LRU mapping (src/quodeq/shared/lru.py): entries coldest first, a use
 moves an entry to the end, the coldest goes once the capacity is exceeded.
 */
module LruCache {
  import opened Prelude

  datatype Entry<K, V> = Entry(key: K, value: V)

  type Table<K, V> = seq<Entry<K, V>>

  ghost function Keys<K, V>(t: Table<K, V>): set<K> { set e <- t :: e.key }

  function Find<K(==), V>(t: Table<K, V>, key: K): Option<V> {
    if t == [] then None else if t[0].key == key then Some(t[0].value) else Find(t[1..], key)
  }

  function Without<K(==), V>(t: Table<K, V>, key: K): Table<K, V> {
    if t == [] then [] else (if t[0].key == key then [] else [t[0]]) + Without(t[1..], key)
  }

  /** A hit becomes the most recent entry; a miss changes nothing. */
  function Touched<K(==), V>(t: Table<K, V>, key: K): Table<K, V> {
    match Find(t, key)
    case None => t
    case Some(v) => Without(t, key) + [Entry(key, v)]
  }

  /** The new entry is the most recent; past the capacity the coldest one goes. */
  function Stored<K(==), V>(t: Table<K, V>, key: K, value: V, capacity: nat): Table<K, V> {
    var grown := Without(t, key) + [Entry(key, value)];
    if |grown| > capacity then grown[|grown| - capacity..] else grown
  }

  ghost predicate DistinctKeys<K, V>(t: Table<K, V>) {
    forall i, j :: 0 <= i < j < |t| ==> t[i].key != t[j].key
  }

  ghost predicate Valid<K, V>(t: Table<K, V>, capacity: nat) {
    |t| <= capacity && DistinctKeys(t)
  }

  lemma KeysConcat<K, V>(a: Table<K, V>, b: Table<K, V>)
    ensures Keys(a + b) == Keys(a) + Keys(b)
  {
    assert forall e :: e in a + b <==> e in a || e in b;
  }

  lemma KeyAt<K, V>(t: Table<K, V>, i: nat)
    requires i < |t|
    ensures t[i].key in Keys(t)
  {
    assert t[i] in t;
  }

  lemma DistinctSnoc<K, V>(t: Table<K, V>, e: Entry<K, V>)
    requires DistinctKeys(t) && e.key !in Keys(t)
    ensures DistinctKeys(t + [e])
  {
    forall i | 0 <= i < |t| ensures t[i].key != e.key { KeyAt(t, i); }
  }

  lemma {:induction false} WithoutMember<K, V>(t: Table<K, V>, key: K, e: Entry<K, V>)
    ensures e in Without(t, key) <==> e in t && e.key != key
  {
    if t != [] {
      WithoutMember(t[1..], key, e);
      assert t == [t[0]] + t[1..];
    }
  }

  lemma {:induction false} WithoutKeys<K, V>(t: Table<K, V>, key: K)
    ensures Keys(Without(t, key)) == Keys(t) - {key}
    ensures |Without(t, key)| <= |t|
    ensures key in Keys(t) ==> |Without(t, key)| < |t|
  {
    if t != [] {
      WithoutKeys(t[1..], key);
      assert t == [t[0]] + t[1..];
      KeysConcat([t[0]], t[1..]);
      KeysConcat([t[0]], Without(t[1..], key));
      assert Keys([t[0]]) == {t[0].key};
    }
  }

  lemma {:induction false} WithoutDistinct<K, V>(t: Table<K, V>, key: K)
    requires DistinctKeys(t)
    ensures DistinctKeys(Without(t, key))
  {
    if t != [] {
      var w := Without(t[1..], key);
      WithoutDistinct(t[1..], key);
      WithoutKeys(t[1..], key);
      forall j | 0 <= j < |w| ensures w[j].key != t[0].key {
        KeyAt(w, j);
        var e :| e in t[1..] && e.key == w[j].key;
        var k :| 0 <= k < |t[1..]| && t[1..][k] == e;
        assert t[k + 1] == e;
      }
    }
  }

  lemma {:induction false} FindProps<K, V>(t: Table<K, V>, key: K)
    ensures Find(t, key).Some? <==> key in Keys(t)
    ensures Find(t, key).Some? ==> Entry(key, Find(t, key).value) in t
  {
    if t != [] {
      FindProps(t[1..], key);
      assert t == [t[0]] + t[1..];
      KeysConcat([t[0]], t[1..]);
      assert Keys([t[0]]) == {t[0].key};
    }
  }

  lemma TouchedKeepsValid<K, V>(t: Table<K, V>, key: K, capacity: nat)
    requires Valid(t, capacity)
    ensures Valid(Touched(t, key), capacity)
  {
    FindProps(t, key);
    if Find(t, key).Some? {
      WithoutKeys(t, key);
      WithoutDistinct(t, key);
      DistinctSnoc(Without(t, key), Entry(key, Find(t, key).value));
    }
  }

  lemma TouchedMember<K, V>(t: Table<K, V>, key: K, e: Entry<K, V>)
    requires e in Touched(t, key)
    ensures e in t
  {
    FindProps(t, key);
    WithoutMember(t, key, e);
  }

  lemma StoredKeepsValid<K, V>(t: Table<K, V>, key: K, value: V, capacity: nat)
    requires Valid(t, capacity) && capacity >= 1
    ensures Valid(Stored(t, key, value, capacity), capacity)
    ensures Entry(key, value) in Stored(t, key, value, capacity)
  {
    WithoutKeys(t, key);
    WithoutDistinct(t, key);
    DistinctSnoc(Without(t, key), Entry(key, value));
    var r := Stored(t, key, value, capacity);
    assert r[|r| - 1] == Entry(key, value);
  }

  lemma StoredMember<K, V>(t: Table<K, V>, key: K, value: V, capacity: nat, e: Entry<K, V>)
    requires e in Stored(t, key, value, capacity)
    ensures e == Entry(key, value) || e in t
  {
    WithoutMember(t, key, e);
    assert e in Without(t, key) + [Entry(key, value)];
  }

  // ------------------------------------------------- what a use does, by position

  lemma {:induction false} WithoutAt<K, V>(t: Table<K, V>, i: nat)
    requires DistinctKeys(t) && i < |t|
    ensures Without(t, t[i].key) == t[..i] + t[i + 1..]
    ensures Find(t, t[i].key) == Some(t[i].value)
  {
    if i == 0 {
      WithoutAbsent(t[1..], t[0].key);
    } else {
      WithoutAt(t[1..], i - 1);
      assert t[..i] == [t[0]] + t[1..][..i - 1] && t[i + 1..] == t[1..][i..];
    }
  }

  lemma {:induction false} WithoutAbsent<K, V>(t: Table<K, V>, key: K)
    requires forall i :: 0 <= i < |t| ==> t[i].key != key
    ensures Without(t, key) == t && Find(t, key) == None
  {
    if t != [] {
      WithoutAbsent(t[1..], key);
      assert t == [t[0]] + t[1..];
    }
  }

  lemma FoundWhereItIs<K, V>(t: Table<K, V>, key: K)
    requires DistinctKeys(t)
    ensures forall i :: 0 <= i < |t| && t[i].key == key ==> Find(t, key) == Some(t[i].value)
    ensures (forall i :: 0 <= i < |t| ==> t[i].key != key) ==> Find(t, key) == None
  {
    if i :| 0 <= i < |t| && t[i].key == key {
      WithoutAt(t, i);
    } else {
      WithoutAbsent(t, key);
    }
  }

  /** A hit moved its entry to the end and left the others in order; a miss changed nothing. */
  ghost predicate MovedToEnd<K, V>(before: Table<K, V>, after: Table<K, V>, key: K) {
    && (forall i :: 0 <= i < |before| && before[i].key == key ==>
          after == before[..i] + before[i + 1..] + [before[i]])
    && ((forall i :: 0 <= i < |before| ==> before[i].key != key) ==> after == before)
  }

  lemma TouchedMovesToEnd<K, V>(t: Table<K, V>, key: K)
    requires DistinctKeys(t)
    ensures MovedToEnd(t, Touched(t, key), key)
  {
    if i :| 0 <= i < |t| && t[i].key == key {
      WithoutAt(t, i);
    } else {
      WithoutAbsent(t, key);
    }
  }

  /** The entry went to the end in place of its old one; a new one cost a full table its coldest entry. */
  ghost predicate PutAtEnd<K, V>(before: Table<K, V>, after: Table<K, V>, key: K, value: V, capacity: nat) {
    && (forall i :: 0 <= i < |before| && before[i].key == key ==>
          after == before[..i] + before[i + 1..] + [Entry(key, value)])
    && ((forall i :: 0 <= i < |before| ==> before[i].key != key) ==>
         after == (if |before| < capacity || before == [] then before else before[1..]) + [Entry(key, value)])
  }

  lemma StoredGoesToEnd<K, V>(t: Table<K, V>, key: K, value: V, capacity: nat)
    requires Valid(t, capacity) && capacity >= 1
    ensures PutAtEnd(t, Stored(t, key, value, capacity), key, value, capacity)
  {
    if i :| 0 <= i < |t| && t[i].key == key {
      WithoutAt(t, i);
    } else {
      WithoutAbsent(t, key);
    }
  }

  // ------------------------------------------- the hot working set stays

  datatype Use<K, V> = Get(key: K) | Put(key: K, value: V)

  function After<K(==), V>(t: Table<K, V>, u: Use<K, V>, capacity: nat): Table<K, V> {
    match u
    case Get(key) => Touched(t, key)
    case Put(key, value) => Stored(t, key, value, capacity)
  }

  function AfterAll<K(==), V>(t: Table<K, V>, uses: seq<Use<K, V>>, capacity: nat): Table<K, V> {
    if uses == [] then t else After(AfterAll(t, uses[..|uses| - 1], capacity), uses[|uses| - 1], capacity)
  }

  ghost function UsedKeys<K, V>(uses: seq<Use<K, V>>): set<K> { set u <- uses :: u.key }

  /** `key` is cached at some position, and everything warmer than it is one of `warmer`. */
  ghost predicate Resident<K, V>(t: Table<K, V>, key: K, value: V, warmer: set<K>) {
    exists i :: 0 <= i < |t| && t[i] == Entry(key, value) && Keys(t[i + 1..]) <= warmer
  }

  lemma {:induction false} WithoutConcat<K, V>(a: Table<K, V>, b: Table<K, V>, key: K)
    ensures Without(a + b, key) == Without(a, key) + Without(b, key)
  {
    if a == [] {
      assert a + b == b;
    } else {
      assert (a + b)[1..] == a[1..] + b;
      WithoutConcat(a[1..], b, key);
    }
  }

  lemma {:induction false} KeysSize<K, V>(t: Table<K, V>)
    requires DistinctKeys(t)
    ensures |Keys(t)| == |t|
  {
    if t != [] {
      KeysSize(t[1..]);
      assert t == [t[0]] + t[1..];
      KeysConcat([t[0]], t[1..]);
      assert Keys([t[0]]) == {t[0].key};
      assert t[0].key !in Keys(t[1..]);
    }
  }

  lemma SubsetSize<K>(a: set<K>, b: set<K>)
    requires a <= b
    ensures |a| <= |b|
  {
    assert b == a + (b - a);
  }

  lemma ResidentAt<K, V>(a: Table<K, V>, key: K, value: V, b: Table<K, V>, warmer: set<K>)
    requires Keys(b) <= warmer
    ensures Resident(a + [Entry(key, value)] + b, key, value, warmer)
  {
    var t := a + [Entry(key, value)] + b;
    assert t[|a|] == Entry(key, value) && t[|a| + 1..] == b;
  }

  /** Removing another key keeps `key` where it was among the rest. */
  lemma ResidentWithout<K, V>(t: Table<K, V>, key: K, value: V, warmer: set<K>, other: K)
    returns (a: Table<K, V>, b: Table<K, V>)
    requires Resident(t, key, value, warmer) && other != key
    ensures Without(t, other) == a + [Entry(key, value)] + b && Keys(b) <= warmer
  {
    var i :| 0 <= i < |t| && t[i] == Entry(key, value) && Keys(t[i + 1..]) <= warmer;
    assert t == t[..i] + [Entry(key, value)] + t[i + 1..];
    WithoutAround(t[..i], Entry(key, value), t[i + 1..], other);
    WithoutKeys(t[i + 1..], other);
    a, b := Without(t[..i], other), Without(t[i + 1..], other);
  }

  lemma WithoutSingle<K, V>(e: Entry<K, V>, other: K)
    requires e.key != other
    ensures Without([e], other) == [e]
  {
    assert [e][1..] == [];
  }

  lemma WithoutAround<K, V>(a: Table<K, V>, e: Entry<K, V>, b: Table<K, V>, other: K)
    requires e.key != other
    ensures Without(a + [e] + b, other) == Without(a, other) + [e] + Without(b, other)
  {
    WithoutConcat(a + [e], b, other);
    WithoutConcat(a, [e], other);
    WithoutSingle(e, other);
  }

  /** Dropping the coldest of a table one over the capacity spares `key`: the entries behind it are too few. */
  lemma EvictionSpares<K, V>(
    a: Table<K, V>, key: K, value: V, tail: Table<K, V>, warmer: set<K>, capacity: nat)
    requires Keys(tail) <= warmer && DistinctKeys(tail) && |warmer| < capacity
    requires |a| + |tail| == capacity
    ensures Resident((a + [Entry(key, value)] + tail)[1..], key, value, warmer)
  {
    KeysSize(tail);
    SubsetSize(Keys(tail), warmer);
    ResidentAt(a[1..], key, value, tail, warmer);
    assert (a + [Entry(key, value)] + tail)[1..] == a[1..] + [Entry(key, value)] + tail;
  }

  /** Appending an entry for another key makes that key warmer, and dropping the coldest entry spares `key`. */
  lemma AppendKeepsResident<K, V>(
    a: Table<K, V>, key: K, value: V, b: Table<K, V>, e: Entry<K, V>, warmer: set<K>, capacity: nat)
    requires Keys(b) <= warmer && DistinctKeys(b) && e.key !in Keys(b)
    requires |warmer + {e.key}| < capacity
    requires |a| + |b| + 2 <= capacity + 1
    ensures var grown := a + [Entry(key, value)] + b + [e];
      Resident(grown, key, value, warmer + {e.key})
      && (|grown| > capacity ==> Resident(grown[1..], key, value, warmer + {e.key}))
  {
    var tail := b + [e];
    KeysConcat(b, [e]);
    assert Keys([e]) == {e.key};
    ResidentAt(a, key, value, tail, warmer + {e.key});
    assert a + [Entry(key, value)] + b + [e] == a + [Entry(key, value)] + tail;
    DistinctSnoc(b, e);
    if |a| + |tail| == capacity {
      EvictionSpares(a, key, value, tail, warmer + {e.key}, capacity);
    }
  }

  /** One use of another key: `key` stays, unless more distinct keys than fit have been used since. */
  lemma UseKeepsResident<K, V>(t: Table<K, V>, key: K, value: V, warmer: set<K>, u: Use<K, V>, capacity: nat)
    requires Valid(t, capacity) && Resident(t, key, value, warmer)
    requires u.key != key && |warmer + {u.key}| < capacity
    ensures Resident(After(t, u, capacity), key, value, warmer + {u.key})
  {
    FindProps(t, u.key);
    if u.Put? || Find(t, u.key).Some? {
      var e := Entry(u.key, if u.Put? then u.value else Find(t, u.key).value);
      var a, b := ResidentWithout(t, key, value, warmer, u.key);
      WithoutKeys(t, u.key);
      WithoutDistinct(t, u.key);
      var w := Without(t, u.key);
      assert b == w[|a| + 1..];
      KeysConcat(a + [Entry(key, value)], b);
      AppendKeepsResident(a, key, value, b, e, warmer, capacity);
    } else {
      var i :| 0 <= i < |t| && t[i] == Entry(key, value) && Keys(t[i + 1..]) <= warmer;
    }
  }

  /** The entry used last stays while fewer than `capacity` distinct other keys are used. */
  lemma {:induction false} LastUsedStays<K, V>(
    t: Table<K, V>, key: K, value: V, uses: seq<Use<K, V>>, capacity: nat)
    requires Valid(t, capacity) && capacity >= 1
    requires t != [] && t[|t| - 1] == Entry(key, value)
    requires key !in UsedKeys(uses) && |UsedKeys(uses)| < capacity
    ensures Valid(AfterAll(t, uses, capacity), capacity)
    ensures Resident(AfterAll(t, uses, capacity), key, value, UsedKeys(uses))
    ensures Entry(key, value) in AfterAll(t, uses, capacity)
  {
    if uses == [] {
      ResidentAt(t[..|t| - 1], key, value, [], UsedKeys(uses));
      assert t == t[..|t| - 1] + [Entry(key, value)] + [];
    } else {
      var init, u := uses[..|uses| - 1], uses[|uses| - 1];
      assert uses == init + [u];
      assert UsedKeys(uses) == UsedKeys(init) + {u.key};
      SubsetSize(UsedKeys(init), UsedKeys(uses));
      LastUsedStays(t, key, value, init, capacity);
      var mid := AfterAll(t, init, capacity);
      UseKeepsResident(mid, key, value, UsedKeys(init), u, capacity);
      match u {
        case Get(k) => TouchedKeepsValid(mid, k, capacity);
        case Put(k, v) => StoredKeepsValid(mid, k, v, capacity);
      }
    }
  }

  /**
   The LRU law: after a hit or a store, whatever the table held before, the key stays
   cached with its value while fewer than `capacity` distinct other keys are used.
   The hot working set is never evicted.
   */
  lemma HotKeysStay<K, V>(
    t: Table<K, V>, u: Use<K, V>, value: V, uses: seq<Use<K, V>>, capacity: nat)
    requires Valid(t, capacity) && capacity >= 1
    requires if u.Get? then Entry(u.key, value) in t else u.value == value
    requires u.key !in UsedKeys(uses) && |UsedKeys(uses)| < capacity
    ensures Entry(u.key, value) in AfterAll(After(t, u, capacity), uses, capacity)
  {
    var used := After(t, u, capacity);
    if u.Get? {
      var i :| 0 <= i < |t| && t[i] == Entry(u.key, value);
      TouchedMovesToEnd(t, u.key);
      TouchedKeepsValid(t, u.key, capacity);
    } else {
      StoredKeepsValid(t, u.key, value, capacity);
      assert used[|used| - 1] == Entry(u.key, value);
    }
    LastUsedStays(used, u.key, value, uses, capacity);
  }

  // ---------------------------------------------------------------- the class

  class LRUDict<K(==), V> {
    var data: Table<K, V>
    const capacity: nat

    /** A capacity below one is refused by the caller's ValueError. */
    constructor (capacity: nat)
      requires capacity >= 1
      ensures this.capacity == capacity && data == [] && Valid(data, capacity)
    {
      this.capacity, data := capacity, [];
    }

    method Get(key: K) returns (hit: Option<V>)
      requires Valid(data, capacity)
      modifies this
      ensures hit == Find(old(data), key) && data == Touched(old(data), key)
      ensures forall i :: 0 <= i < |old(data)| && old(data)[i].key == key ==> hit == Some(old(data)[i].value)
      ensures (forall i :: 0 <= i < |old(data)| ==> old(data)[i].key != key) ==> hit == None
      ensures MovedToEnd(old(data), data, key)
      ensures Valid(data, capacity)
    {
      hit := Find(data, key);
      TouchedKeepsValid(data, key, capacity);
      TouchedMovesToEnd(data, key);
      FoundWhereItIs(data, key);
      if hit.Some? {
        data := Without(data, key) + [Entry(key, hit.value)];
      }
    }

    method Put(key: K, value: V)
      requires Valid(data, capacity) && capacity >= 1
      modifies this
      ensures data == Stored(old(data), key, value, capacity)
      ensures PutAtEnd(old(data), data, key, value, capacity)
      ensures Valid(data, capacity)
    {
      StoredKeepsValid(data, key, value, capacity);
      StoredGoesToEnd(data, key, value, capacity);
      data := Without(data, key) + [Entry(key, value)];
      ghost var grown := data;
      while |data| > capacity
        invariant |data| <= |grown| && data == grown[|grown| - |data|..]
        invariant |data| >= if |grown| > capacity then capacity else |grown|
        decreases |data|
      {
        data := data[1..];
      }
    }

    method Clear()
      modifies this
      ensures data == [] && Valid(data, capacity)
    {
      data := [];
    }
  }
}
