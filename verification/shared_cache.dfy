/** `SharedCache`: an insert-if-absent key/value cache offered under several strategies.
    The unsafe variant uses its own dictionary; the lock and reader-writer-lock variants
    share one dictionary (`_cacheWithLock`); the concurrent-dictionary variant uses a
    third. Each call is one atomic step on its dictionary. */
module SharedCache {

  import opened Optional

  /** The lookup every `Get*` performs: the stored value, or `None` for a missing key
      (the C# code returns `default`). */
  function Lookup<K(==), V>(m: map<K, V>, k: K): Option<V>
  {
    if k in m then Some(m[k]) else None
  }

  /** Insert-if-absent: a present key keeps its value. */
  function InsertIfAbsent<K(==), V>(m: map<K, V>, k: K, v: V): map<K, V>
  {
    if k in m then m else m[k := v]
  }

  /** Adding a key that is absent stores exactly that entry; adding a present key
      changes nothing; either way every other entry is untouched. */
  lemma InsertIfAbsentMeaning<K, V>(m: map<K, V>, k: K, v: V)
    ensures InsertIfAbsent(m, k, v).Keys == m.Keys + {k}
    ensures k !in m ==> Lookup(InsertIfAbsent(m, k, v), k) == Some(v)
    ensures k in m ==> InsertIfAbsent(m, k, v) == m
    ensures forall j :: j in m ==> InsertIfAbsent(m, k, v)[j] == m[j]
  {
  }

  /** The pairs of `adds` inserted one after another, first to last. */
  function AddAll<K(==), V>(m: map<K, V>, adds: seq<(K, V)>): map<K, V>
  {
    if adds == [] then m
    else
      var (k, v) := adds[|adds| - 1];
      InsertIfAbsent(AddAll(m, adds[..|adds| - 1]), k, v)
  }

  function KeysOf<K(==), V>(adds: seq<(K, V)>): set<K>
  {
    set i | 0 <= i < |adds| :: adds[i].0
  }

  /** The value the first add of key `k` in `adds` carries. */
  function FirstValue<K(==), V>(adds: seq<(K, V)>, k: K): V
    requires k in KeysOf(adds)
  {
    var last := adds[|adds| - 1];
    if k in KeysOf(adds[..|adds| - 1]) then FirstValue(adds[..|adds| - 1], k)
    else assert last.0 == k; last.1
  }

  /** No lost insert and no overwrite: after any sequence of adds the keys are those
      present before plus those added, entries present before keep their values, and a
      new key holds the value of its first add. */
  lemma {:induction false} AddAllMeaning<K, V>(m: map<K, V>, adds: seq<(K, V)>)
    ensures AddAll(m, adds).Keys == m.Keys + KeysOf(adds)
    ensures forall k :: k in m ==> AddAll(m, adds)[k] == m[k]
    ensures forall k :: k in KeysOf(adds) && k !in m ==> AddAll(m, adds)[k] == FirstValue(adds, k)
  {
    if adds != [] {
      var prefix := adds[..|adds| - 1];
      AddAllMeaning(m, prefix);
      assert KeysOf(adds) == KeysOf(prefix) + {adds[|adds| - 1].0} by {
        assert forall i :: 0 <= i < |prefix| ==> prefix[i] == adds[i];
      }
    }
  }

  /** Entry count after adds into an empty cache: the number of distinct keys added;
      with pairwise distinct keys, the number of adds. */
  lemma {:induction false} AddAllCount<K, V>(adds: seq<(K, V)>)
    ensures |AddAll(map[], adds)| == |KeysOf(adds)|
    ensures (forall i, j :: 0 <= i < j < |adds| ==> adds[i].0 != adds[j].0) ==>
      |AddAll(map[], adds)| == |adds|
  {
    AddAllMeaning(map[], adds);
    assert AddAll(map[], adds).Keys == KeysOf(adds);
    if forall i, j :: 0 <= i < j < |adds| ==> adds[i].0 != adds[j].0 {
      DistinctKeysCount(adds);
    }
  }

  lemma {:induction false} DistinctKeysCount<K, V>(adds: seq<(K, V)>)
    requires forall i, j :: 0 <= i < j < |adds| ==> adds[i].0 != adds[j].0
    ensures |KeysOf(adds)| == |adds|
  {
    if adds != [] {
      var prefix := adds[..|adds| - 1];
      DistinctKeysCount(prefix);
      assert KeysOf(adds) == KeysOf(prefix) + {adds[|adds| - 1].0} by {
        assert forall i :: 0 <= i < |prefix| ==> prefix[i] == adds[i];
      }
      assert adds[|adds| - 1].0 !in KeysOf(prefix);
    }
  }

  class SharedCache<K(==), V> {
    var cacheUnsafe: map<K, V>
    var cacheWithLock: map<K, V>
    var cacheThreadSafe: map<K, V>

    constructor ()
      ensures cacheUnsafe == map[] && cacheWithLock == map[] && cacheThreadSafe == map[]
    {
      cacheUnsafe, cacheWithLock, cacheThreadSafe := map[], map[], map[];
    }

    method UnsafeCount() returns (n: nat)
      ensures n == |cacheUnsafe|
    {
      n := |cacheUnsafe|;
    }

    method LockCount() returns (n: nat)
      ensures n == |cacheWithLock|
    {
      n := |cacheWithLock|;
    }

    method ThreadSafeCount() returns (n: nat)
      ensures n == |cacheThreadSafe|
    {
      n := |cacheThreadSafe|;
    }

    /** Check, then add, on the unsynchronised dictionary. */
    method AddUnsafe(key: K, value: V)
      modifies this
      ensures cacheUnsafe == InsertIfAbsent(old(cacheUnsafe), key, value)
      ensures cacheWithLock == old(cacheWithLock) && cacheThreadSafe == old(cacheThreadSafe)
    {
      if key !in cacheUnsafe {
        cacheUnsafe := cacheUnsafe[key := value];
      }
    }

    method GetUnsafe(key: K) returns (r: Option<V>)
      ensures r == Lookup(cacheUnsafe, key)
    {
      r := if key in cacheUnsafe then Some(cacheUnsafe[key]) else None;
    }

    /** Check-then-add inside the lock. */
    method AddWithLock(key: K, value: V)
      modifies this
      ensures cacheWithLock == InsertIfAbsent(old(cacheWithLock), key, value)
      ensures cacheUnsafe == old(cacheUnsafe) && cacheThreadSafe == old(cacheThreadSafe)
    {
      if key !in cacheWithLock {
        cacheWithLock := cacheWithLock[key := value];
      }
    }

    method GetWithLock(key: K) returns (r: Option<V>)
      ensures r == Lookup(cacheWithLock, key)
    {
      r := if key in cacheWithLock then Some(cacheWithLock[key]) else None;
    }

    /** Check-then-store under the write lock, on the same dictionary as `AddWithLock`. */
    method AddWithReaderWriterLock(key: K, value: V)
      modifies this
      ensures cacheWithLock == InsertIfAbsent(old(cacheWithLock), key, value)
      ensures cacheUnsafe == old(cacheUnsafe) && cacheThreadSafe == old(cacheThreadSafe)
    {
      if key !in cacheWithLock {
        cacheWithLock := cacheWithLock[key := value];
      }
    }

    /** Lookup under the read lock, on the same dictionary as `GetWithLock`. */
    method GetWithReaderWriterLock(key: K) returns (r: Option<V>)
      ensures r == Lookup(cacheWithLock, key)
    {
      r := if key in cacheWithLock then Some(cacheWithLock[key]) else None;
    }

    /** `TryAdd` on the concurrent dictionary: inserts only if absent. */
    method AddThreadSafe(key: K, value: V)
      modifies this
      ensures cacheThreadSafe == InsertIfAbsent(old(cacheThreadSafe), key, value)
      ensures cacheUnsafe == old(cacheUnsafe) && cacheWithLock == old(cacheWithLock)
    {
      if key !in cacheThreadSafe {
        cacheThreadSafe := cacheThreadSafe[key := value];
      }
    }

    /** `TryGetValue` on the concurrent dictionary. */
    method GetThreadSafe(key: K) returns (r: Option<V>)
      ensures r == Lookup(cacheThreadSafe, key)
    {
      r := if key in cacheThreadSafe then Some(cacheThreadSafe[key]) else None;
    }

    /** `GetOrAdd`: the stored value if present; otherwise `valueFactory(key)`, stored. */
    method GetOrAddThreadSafe(key: K, valueFactory: K -> V) returns (r: V)
      modifies this
      ensures r == if key in old(cacheThreadSafe) then old(cacheThreadSafe)[key] else valueFactory(key)
      ensures cacheThreadSafe == InsertIfAbsent(old(cacheThreadSafe), key, valueFactory(key))
      ensures Lookup(cacheThreadSafe, key) == Some(r)
      ensures cacheUnsafe == old(cacheUnsafe) && cacheWithLock == old(cacheWithLock)
    {
      if key in cacheThreadSafe {
        r := cacheThreadSafe[key];
      } else {
        r := valueFactory(key);
        cacheThreadSafe := cacheThreadSafe[key := r];
      }
    }

    /** Empties all three dictionaries. */
    method ClearAll()
      modifies this
      ensures cacheUnsafe == map[] && cacheWithLock == map[] && cacheThreadSafe == map[]
    {
      cacheUnsafe := map[];
      cacheWithLock := map[];
      cacheThreadSafe := map[];
    }
  }

  /** Adds with the lock variant, one after another, as the writer threads' critical
      sections execute; the dictionary ends as `AddAll` says. */
  method AddAllWithLock<K(==), V>(cache: SharedCache<K, V>, adds: seq<(K, V)>)
    modifies cache
    ensures cache.cacheWithLock == AddAll(old(cache.cacheWithLock), adds)
    ensures cache.cacheUnsafe == old(cache.cacheUnsafe)
    ensures cache.cacheThreadSafe == old(cache.cacheThreadSafe)
  {
    var i := 0;
    while i < |adds|
      invariant 0 <= i <= |adds|
      invariant cache.cacheWithLock == AddAll(old(cache.cacheWithLock), adds[..i])
      invariant cache.cacheUnsafe == old(cache.cacheUnsafe)
      invariant cache.cacheThreadSafe == old(cache.cacheThreadSafe)
    {
      assert adds[..i + 1][..i] == adds[..i];
      cache.AddWithLock(adds[i].0, adds[i].1);
      i := i + 1;
    }
    assert adds[..|adds|] == adds;
  }

  /** Writers adding distinct keys into a fresh cache leave exactly that many entries,
      and a reader using the reader-writer lock sees what the lock variant stored. */
  method DistinctKeysDemo<K(==), V>(adds: seq<(K, V)>) returns (count: nat, firstSeen: Option<V>)
    requires adds != []
    requires forall i, j :: 0 <= i < j < |adds| ==> adds[i].0 != adds[j].0
    ensures count == |adds|
    ensures firstSeen == Some(adds[0].1)
  {
    var cache := new SharedCache<K, V>();
    AddAllWithLock(cache, adds);
    AddAllCount(adds);
    count := cache.LockCount();
    AddAllMeaning(map[], adds);
    assert adds[0].0 in KeysOf(adds);
    FirstValueOfDistinct(adds, 0);
    firstSeen := cache.GetWithReaderWriterLock(adds[0].0);
  }

  /** With pairwise distinct keys, the first add of the i-th key is the i-th add. */
  lemma {:induction false} FirstValueOfDistinct<K, V>(adds: seq<(K, V)>, i: nat)
    requires i < |adds|
    requires forall a, b :: 0 <= a < b < |adds| ==> adds[a].0 != adds[b].0
    ensures adds[i].0 in KeysOf(adds) && FirstValue(adds, adds[i].0) == adds[i].1
  {
    var prefix := adds[..|adds| - 1];
    assert adds[i].0 in KeysOf(adds);
    if i < |adds| - 1 {
      assert prefix[i] == adds[i];
      FirstValueOfDistinct(prefix, i);
    } else {
      assert adds[i].0 !in KeysOf(prefix);
    }
  }
}
