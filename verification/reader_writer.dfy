/** The reader-writer-lock solution: a shared string register in three variants
    (`SharedResource`, `SharedResourceWithLock`, `SharedResourceWithRWLock`) and
    `LazyCache`, whose `GetOrAdd` checks under an upgradeable read lock and re-checks
    under the write lock before running the factory. Each call is one atomic step. */
module ReaderWriter {
  import opened SharedCache

  /** The three shared-resource classes differ only in their lock and initial text. */
  class SharedResource {
    var value: string

    /** `SharedResource` starts as "Inicial". */
    constructor Plain()
      ensures value == "Inicial"
    {
      value := "Inicial";
    }

    /** `SharedResourceWithLock` starts as "Initial". */
    constructor WithLock()
      ensures value == "Initial"
    {
      value := "Initial";
    }

    /** `SharedResourceWithRWLock` starts as "Initial". */
    constructor WithRWLock()
      ensures value == "Initial"
    {
      value := "Initial";
    }

    /** Read under the read lock; changes nothing. */
    method Read() returns (r: string)
      ensures r == value
    {
      r := value;
    }

    /** Write under the write lock. */
    method Write(v: string)
      modifies this
      ensures value == v
    {
      value := v;
    }
  }

  /** A write followed by a read on any variant reads back what was written. */
  method WriteThenRead(resource: SharedResource, v: string) returns (r: string)
    modifies resource
    ensures r == v && resource.value == v
  {
    resource.Write(v);
    r := resource.Read();
  }

  /** A fresh resource of each variant reads its initial text. */
  method InitialReads() returns (plain: string, withLock: string, withRWLock: string)
    ensures plain == "Inicial" && withLock == "Initial" && withRWLock == "Initial"
  {
    var a := new SharedResource.Plain();
    var b := new SharedResource.WithLock();
    var c := new SharedResource.WithRWLock();
    plain := a.Read();
    withLock := b.Read();
    withRWLock := c.Read();
  }

  /** One call a worker of the performance comparison makes: a read, or a write of `v`. */
  datatype Access = ReadAccess | WriteAccess(v: string)

  /** The value a resource holding `initial` holds after `ops`: the last write, if any. */
  function LastWritten(initial: string, ops: seq<Access>): string
  {
    if ops == [] then initial
    else if ops[|ops| - 1].WriteAccess? then ops[|ops| - 1].v
    else LastWritten(initial, ops[..|ops| - 1])
  }

  /** Once `ops[k]` is a write that no later call overwrites, the resource holds the value
      it wrote. */
  lemma {:induction false} LastWrittenIsLatestWrite(initial: string, ops: seq<Access>, k: int)
    requires 0 <= k < |ops| && ops[k].WriteAccess?
    requires forall m :: k < m < |ops| ==> ops[m] == ReadAccess
    ensures LastWritten(initial, ops) == ops[k].v
  {
    var n := |ops| - 1;
    if k < n {
      assert ops[n] == ReadAccess;
      var prefix := ops[..n];
      assert prefix[k] == ops[k];
      forall m | k < m < |prefix|
        ensures prefix[m] == ReadAccess
      {
        assert prefix[m] == ops[m];
      }
      LastWrittenIsLatestWrite(initial, prefix, k);
    }
  }

  /** Reads alone leave the initial value in place. */
  lemma {:induction false} LastWrittenWithoutWrites(initial: string, ops: seq<Access>)
    requires forall k :: 0 <= k < |ops| ==> ops[k] == ReadAccess
    ensures LastWritten(initial, ops) == initial
  {
    if ops != [] {
      var prefix := ops[..|ops| - 1];
      forall k | 0 <= k < |prefix|
        ensures prefix[k] == ReadAccess
      {
        assert prefix[k] == ops[k];
      }
      LastWrittenWithoutWrites(initial, prefix);
    }
  }

  /** Performs `ops` on `resource` one call at a time (the choice between read and write,
      random in the source, is the parameter `ops`); every read returns the value of the
      latest preceding write, or the value the resource held before. */
  method RunOperations(resource: SharedResource, ops: seq<Access>) returns (observed: seq<string>)
    modifies resource
    ensures resource.value == LastWritten(old(resource.value), ops)
    ensures |observed| == |ops|
    ensures forall k :: 0 <= k < |ops| && ops[k] == ReadAccess ==>
      observed[k] == LastWritten(old(resource.value), ops[..k])
  {
    observed := [];
    var i := 0;
    while i < |ops|
      invariant 0 <= i <= |ops| && |observed| == i
      invariant resource.value == LastWritten(old(resource.value), ops[..i])
      invariant forall k :: 0 <= k < i && ops[k] == ReadAccess ==>
        observed[k] == LastWritten(old(resource.value), ops[..k])
    {
      assert ops[..i + 1][..i] == ops[..i];
      match ops[i] {
        case ReadAccess =>
          var r := resource.Read();
          observed := observed + [r];
        case WriteAccess(v) =>
          resource.Write(v);
          observed := observed + [""];
      }
      i := i + 1;
    }
    assert ops[..|ops|] == ops;
  }

  /** The outcome of one `GetOrAdd(key, factory)` on `cache`, where `produced` is what the
      factory would return: the new cache, the value returned, and whether the factory ran. */
  datatype Lazy = Lazy(cache: map<string, string>, value: string, invoked: bool)

  function GetOrAddStep(cache: map<string, string>, key: string, produced: string): Lazy
  {
    if key in cache then Lazy(cache, cache[key], false)
    else Lazy(cache[key := produced], produced, true)
  }

  /** `LazyCache`: a dictionary filled on demand. */
  class LazyCache {
    var cache: map<string, string>

    constructor ()
      ensures cache == map[]
    {
      cache := map[];
    }

    /** On a hit, the cached value, factory not run; on a miss, the factory's value,
        stored under `key`. The re-check under the write lock never overwrites. */
    method GetOrAdd(key: string, valueFactory: () -> string) returns (r: string, invoked: bool)
      modifies this
      ensures Lazy(cache, r, invoked) == GetOrAddStep(old(cache), key, valueFactory())
      ensures invoked <==> key !in old(cache)
      ensures key in cache && cache[key] == r
      ensures cache == InsertIfAbsent(old(cache), key, r)
    {
      // upgradeable read lock
      if key in cache {
        return cache[key], false;
      }
      // write lock: the double-check. The call is one atomic step here, which the
      // upgradeable read lock's exclusion of other writers justifies, so this branch is dead
      if key in cache {
        assert false;
      }
      r := valueFactory();
      invoked := true;
      cache := cache[key := r];
    }
  }

  /** A sequence of `GetOrAdd` calls, one after another: each call is a key and the value
      its factory would produce. Returns the final cache, the values returned and whether
      each call ran its factory. */
  datatype Calls = Calls(cache: map<string, string>, results: seq<string>, invoked: seq<bool>)

  function RunCalls(cache: map<string, string>, calls: seq<(string, string)>): (c: Calls)
    ensures |c.results| == |calls| && |c.invoked| == |calls|
  {
    if calls == [] then Calls(cache, [], [])
    else
      var before := RunCalls(cache, calls[..|calls| - 1]);
      var (key, produced) := calls[|calls| - 1];
      var step := GetOrAddStep(before.cache, key, produced);
      Calls(step.cache, before.results + [step.value], before.invoked + [step.invoked])
  }

  /** Entries present at the start are never changed. */
  lemma {:induction false} RunCallsKeepsEntries(cache: map<string, string>, calls: seq<(string, string)>)
    ensures var c := RunCalls(cache, calls);
      forall k :: k in cache ==> k in c.cache && c.cache[k] == cache[k]
  {
    if calls != [] {
      RunCallsKeepsEntries(cache, calls[..|calls| - 1]);
    }
  }

  /** Each call returns what the cache finally holds for its key. */
  lemma {:induction false} RunCallsResults(cache: map<string, string>, calls: seq<(string, string)>)
    ensures var c := RunCalls(cache, calls);
      forall i :: 0 <= i < |calls| ==> calls[i].0 in c.cache && c.results[i] == c.cache[calls[i].0]
  {
    if calls != [] {
      var n := |calls| - 1;
      var prefix := calls[..n];
      RunCallsResults(cache, prefix);
      RunCallsKeepsEntries(cache, prefix);
      var before := RunCalls(cache, prefix);
      var c := RunCalls(cache, calls);
      forall i | 0 <= i < n
        ensures calls[i].0 in c.cache && c.results[i] == c.cache[calls[i].0]
      {
        assert calls[i] == prefix[i];
      }
    }
  }

  /** The factory runs only for a key absent at the start, and at most once per key. */
  lemma {:induction false} RunCallsInvoked(cache: map<string, string>, calls: seq<(string, string)>)
    ensures var c := RunCalls(cache, calls);
      forall i :: 0 <= i < |calls| && c.invoked[i] ==> calls[i].0 !in cache
    ensures var c := RunCalls(cache, calls);
      forall i, j :: 0 <= i < j < |calls| && calls[i].0 == calls[j].0 ==> !c.invoked[j]
  {
    RunCallsKeepsEntries(cache, calls);
    if calls != [] {
      var n := |calls| - 1;
      var prefix := calls[..n];
      RunCallsInvoked(cache, prefix);
      RunCallsKeepsEntries(cache, prefix);
      RunCallsResults(cache, prefix);
      var before := RunCalls(cache, prefix);
      var c := RunCalls(cache, calls);
      assert c.invoked == before.invoked + [!(calls[n].0 in before.cache)];
      forall i | 0 <= i < n
        ensures calls[i] == prefix[i] && c.invoked[i] == before.invoked[i]
      {
      }
    }
  }

  /** For any sequence of calls: each call returns what the cache finally holds for its
      key, so all calls on one key return the same value; the factory runs only for a key
      that was absent at the start, and at most once per key; entries present at the start
      are never changed. */
  lemma FactoryAtMostOncePerKey(cache: map<string, string>, calls: seq<(string, string)>)
    ensures var c := RunCalls(cache, calls);
      |c.results| == |calls| && |c.invoked| == |calls|
    ensures var c := RunCalls(cache, calls);
      forall i :: 0 <= i < |calls| ==> calls[i].0 in c.cache && c.results[i] == c.cache[calls[i].0]
    ensures var c := RunCalls(cache, calls);
      forall i :: 0 <= i < |calls| && c.invoked[i] ==> calls[i].0 !in cache
    ensures var c := RunCalls(cache, calls);
      forall i, j :: 0 <= i < j < |calls| && calls[i].0 == calls[j].0 ==> !c.invoked[j]
    ensures var c := RunCalls(cache, calls);
      forall k :: k in cache ==> k in c.cache && c.cache[k] == cache[k]
  {
    RunCallsKeepsEntries(cache, calls);
    RunCallsResults(cache, calls);
    RunCallsInvoked(cache, calls);
  }

  /** The demonstration: five threads ask for "chave1" on an empty cache; only the
      first loads the data, and every thread obtains "Dados carregados". */
  method LazyCacheDemo() returns (results: seq<string>, loads: nat)
    ensures |results| == 5
    ensures forall i :: 0 <= i < 5 ==> results[i] == "Dados carregados"
    ensures loads == 1
  {
    var lazy := new LazyCache();
    results := [];
    loads := 0;
    var i := 0;
    while i < 5
      invariant 0 <= i <= 5
      invariant |results| == i
      invariant forall k :: 0 <= k < i ==> results[k] == "Dados carregados"
      invariant lazy.cache == if i == 0 then map[] else map["chave1" := "Dados carregados"]
      invariant loads == if i == 0 then 0 else 1
    {
      var r, invoked := lazy.GetOrAdd("chave1", () => "Dados carregados");
      results := results + [r];
      if invoked {
        loads := loads + 1;
      }
      i := i + 1;
    }
  }
}
