# Concurrency examples, modelled in Dafny

This project models the logic at the heart of a collection of concurrency teaching
examples in C#, C++ and C. It covers:

- atomic counters and sequence generators;
- the `Interlocked` primitives;
- a lock-guarded bank account;
- insert-if-absent caches;
- a reader-writer register and a lazily filled cache;
- a monitor-based bounded buffer;
- a semaphore-based connection pool and rate limiter;
- the sequential kernels inside the OpenMP and pthreads programs: counting sort, a
  parallel search with a critical section, a divide-and-conquer linear search with a
  first-writer-wins result slot, and a `1..N` sum.

Every safe operation in these programs runs inside a lock, an `Interlocked` call, an atomic
increment, a semaphore or an OpenMP critical section. So the model treats each one as a
single atomic step: a method of a class whose fields it updates. Any interleaving of such
steps is then some sequential order of them.

The "no lost update" claims are stated about that order:
- either as lemmas over arbitrary sequences of operations (`Run`, `Replay`, `Admit`,
  `AddAll`, `RunCalls`, `Received`, `UnsafeRun`, `CasOutcome`);
- or as the contract of a method that takes the order as a parameter (`ParallelSearch`'s
  `schedule`, `Search`'s `order`).

A blocking wait becomes a precondition: `Monitor.Wait` while the buffer is full or empty,
`SemaphoreSlim.Wait()` without a timeout.

Machine integers are unbounded `int`s, with 32/64-bit wrap-around written out
(`MachineInt.Wrap32`, `Wrap64`) where the source's arithmetic wraps. C# `decimal` amounts
are integers in cents.

Files (one module each unless noted):

| file | models |
|---|---|
| `machine_int.dfy` | two's-complement ranges and wrap-around, and two arithmetic helpers shared by the other modules |
| `option.dfy` | the optional value a cache lookup returns |
| `atomic_sequence.dfy` | `AtomicCounter` (C#) and `SequenceGenerator` (C++) |
| `interlocked.dfy` | the `Interlocked` demonstrations, including the CAS retry loop |
| `shared_counter.dfy` | `SharedCounter`, with the unsafe `++` also split into its load and store halves |
| `bank_account.dfy` | `BankAccount` and `LockSolution.BankAccountExample` |
| `shared_cache.dfy` | `SharedCache` |
| `reader_writer.dfy` | the shared-resource classes and `LazyCache` |
| `bounded_buffer.dfy` | `MonitorSolution.BoundedBuffer<T>` |
| `semaphore.dfy` | `DatabaseConnectionPool`, `DatabaseConnection`, `RateLimiter` |
| `counting_sort.dfy` | `countingSort` |
| `parallel_search.dfy` | the two `parallelSearch` programs (modules `SearchSchedule`, `GuardedSearch`, `OverwritingSearch`) |
| `chunked_search.dfy` | `linear_search` and the chunk partition of both pthreads programs (modules `ChunkedSearch`, `DivideAndConquer`, `StaticArraySearch`) |
| `priority_sum.dfy` | `calculate_sum` |

## Model

| member | source | states |
|---|---|---|
| MachineInt.Increment32Overflows | RaceCondition-CSharp/Solutions/02-InterlockedSolution.cs:67 | incrementing the largest 32-bit value wraps to the smallest, as `Interlocked.Increment` does |
| MachineInt.IncrementThenSubtractOne | RaceCondition-CSharp/Solutions/03-SemaphoreSolution.cs:202 | `Interlocked.Increment(ref n) - 1` in unchecked 32-bit arithmetic is the value n held before, even across wrap-around |
| AtomicSequence.AtomicCounter.constructor | 02-Sincronizacao/Atomic-Operations/CSharp/AtomicCounter.cs:9-12 | a new counter holds 0 |
| AtomicSequence.AtomicCounter.Next | 02-Sincronizacao/Atomic-Operations/CSharp/AtomicCounter.cs:14-17 | the value grows by one (64-bit wrap-around) and the new value is returned; below the maximum it is exactly old + 1 |
| AtomicSequence.AtomicCounter.Value | 02-Sincronizacao/Atomic-Operations/CSharp/AtomicCounter.cs:19-25 | returns the stored value, a 64-bit integer, and changes nothing |
| AtomicSequence.SuccessorsAt | 02-Sincronizacao/Atomic-Operations/CSharp/AtomicCounter.cs:14-17 | k successive increments from v0 return v0+1, ..., v0+k: no gap, no duplicate |
| AtomicSequence.SuccessorsStrictlyIncreasing | 02-Sincronizacao/Atomic-Operations/CSharp/AtomicCounter.cs:14-17 | the values handed out are strictly increasing, hence pairwise distinct |
| AtomicSequence.NextMany | 02-Sincronizacao/Atomic-Operations/CSharp/AtomicCounter.cs:14-17 | k calls of `Next` return exactly the successors of the start value and leave start + k |
| AtomicSequence.RunCounter | 02-Sincronizacao/Atomic-Operations/CSharp/Program.cs:30-46 | threads x increments calls of `Next` on a fresh counter leave `Value` equal to threads x increments |
| AtomicSequence.ReceivedPartitionsRange | 02-Sincronizacao/Atomic-Operations/main.cpp:19-27 | under any interleaving, the ids go one per call: each lies in v0+1..v0+K, the id of the i-th call goes to the thread that made it, no id goes to two threads, and each thread gets as many distinct ids as it made calls |
| AtomicSequence.ReceivedInRange | 02-Sincronizacao/Atomic-Operations/main.cpp:19-27 | a thread's ids lie in v0+1..v0+K and it receives one distinct id per call it made |
| AtomicSequence.ReceivedCovers | 02-Sincronizacao/Atomic-Operations/main.cpp:19-27 | the i-th call overall hands v0+i+1 to the thread that made it |
| AtomicSequence.ReceivedDisjoint | 02-Sincronizacao/Atomic-Operations/main.cpp:19-27 | two different threads never receive the same id |
| AtomicSequence.SequenceGenerator.constructor | 02-Sincronizacao/Atomic-Operations/main.cpp:8 | the generator starts at 0 |
| AtomicSequence.SequenceGenerator.GetNext | 02-Sincronizacao/Atomic-Operations/main.cpp:11-13 | pre-increment (32-bit wrap-around) returning the incremented value; below the maximum it is exactly old + 1 |
| AtomicSequence.HandOutIds | 02-Sincronizacao/Atomic-Operations/main.cpp:19-27 | n calls on a fresh generator hand out exactly 1, ..., n |
| AtomicSequence.RunSchedule | 02-Sincronizacao/Atomic-Operations/main.cpp:11-13 | one `GetNext` per call, in any order of the threads' calls: the ids each thread collects are exactly `Received` of the start value, and the generator ends at start + K |
| AtomicSequence.InterleavedIds | 02-Sincronizacao/Atomic-Operations/main.cpp:17-27 | on a fresh generator, under any interleaving of K calls, a thread's ids lie in 1..K, the i-th call's id i+1 goes to the thread that made it, each thread gets one distinct id per call, and no id goes to two threads |
| AtomicSequence.HundredThreadsGetOneToHundred | 02-Sincronizacao/Atomic-Operations/main.cpp:19-27 | with the program's 100 threads the ids are 1 to 100 |
| Interlocked.Location.Increment | RaceCondition-CSharp/Solutions/02-InterlockedSolution.cs:67 | adds one with wrap-around at the location's width and returns the new value |
| Interlocked.Location.Decrement | RaceCondition-CSharp/Solutions/02-InterlockedSolution.cs:96 | subtracts one with wrap-around and returns the new value |
| Interlocked.Location.Add | RaceCondition-CSharp/Solutions/02-InterlockedSolution.cs:118-122 | adds the delta with wrap-around and returns the new value |
| Interlocked.Location.Exchange | RaceCondition-CSharp/Solutions/02-InterlockedSolution.cs:175-176 | returns the old value and stores the new one |
| Interlocked.Location.CompareExchange | RaceCondition-CSharp/Solutions/02-InterlockedSolution.cs:208-215 | always returns the original value; stores the new value exactly when the original equals the comparand |
| Interlocked.Location.Read | RaceCondition-CSharp/Solutions/02-InterlockedSolution.cs:268 | returns the stored value and changes nothing |
| Interlocked.IncrementMany | RaceCondition-CSharp/Solutions/02-InterlockedSolution.cs:73-89 | n increments without overflow add exactly n: none is lost |
| Interlocked.CasPublishesObservedValue | RaceCondition-CSharp/Solutions/02-InterlockedSolution.cs:229-236 | whatever the interfering writes, the retry loop publishes `2v + 10` for a value v the location really held, after at most one attempt more than there were interfering writes, and in one attempt exactly when nothing interfered |
| Interlocked.CasRetryUpdate | RaceCondition-CSharp/Solutions/02-InterlockedSolution.cs:225-241 | the do/while loop ends with the location and the attempt count that `CasOutcome` gives for the interfering writes |
| Interlocked.IncrementDemo | RaceCondition-CSharp/Solutions/02-InterlockedSolution.cs:55-97 | 0 becomes 1 after Increment and 0 again after Decrement; 10 x 10,000 increments give 100,000 |
| Interlocked.AddDemo | RaceCondition-CSharp/Solutions/02-InterlockedSolution.cs:109-149 | 100 + 50 gives 150, then -30 gives 120; 5 x 1,000 calls of Add(1) give 5,000 |
| Interlocked.ExchangeDemo | RaceCondition-CSharp/Solutions/02-InterlockedSolution.cs:161-176 | exchanging 99 into 42 returns 42 and stores 99 |
| Interlocked.CompareExchangeDemo | RaceCondition-CSharp/Solutions/02-InterlockedSolution.cs:203-241 | (200, 100) on 100 returns 100 and stores 200; (300, 100) returns 200 and leaves 200; the undisturbed retry loop from 100 gives 210 after 1 attempt |
| Interlocked.ReadDemo | RaceCondition-CSharp/Solutions/02-InterlockedSolution.cs:259-269 | the atomic read returns the stored 64-bit value |
| SharedCounter.SharedCounter.constructor | RaceCondition-CSharp/Models/SharedCounter.cs:9-11 | all three counters start at 0 |
| SharedCounter.SharedCounter.CounterUnsafe | RaceCondition-CSharp/Models/SharedCounter.cs:17 | returns the unsafe counter |
| SharedCounter.SharedCounter.CounterWithLock | RaceCondition-CSharp/Models/SharedCounter.cs:22 | returns the locked counter |
| SharedCounter.SharedCounter.CounterWithInterlocked | RaceCondition-CSharp/Models/SharedCounter.cs:27 | returns the interlocked counter |
| SharedCounter.SharedCounter.IncrementUnsafe | RaceCondition-CSharp/Models/SharedCounter.cs:36-44 | run alone, adds one (wrapping) to its own field; the other two are unchanged (interleaved calls: `RunUnsafeSteps`) |
| SharedCounter.SharedCounter.IncrementWithLock | RaceCondition-CSharp/Models/SharedCounter.cs:51-57 | adds exactly one (wrapping) to its own field; the other two are unchanged |
| SharedCounter.SharedCounter.IncrementWithInterlocked | RaceCondition-CSharp/Models/SharedCounter.cs:65-68 | adds exactly one (wrapping) to its own field; the other two are unchanged |
| SharedCounter.SharedCounter.DecrementWithInterlocked | RaceCondition-CSharp/Models/SharedCounter.cs:73-76 | subtracts exactly one (wrapping); the other two are unchanged |
| SharedCounter.SharedCounter.AddWithInterlocked | RaceCondition-CSharp/Models/SharedCounter.cs:83-86 | sets the counter to old + value (wrapping) and returns that new value |
| SharedCounter.SharedCounter.CompareExchangeWithInterlocked | RaceCondition-CSharp/Models/SharedCounter.cs:95-98 | returns the original value; stores the new value exactly when the original equals the comparand, otherwise leaves it |
| SharedCounter.SharedCounter.ResetAll | RaceCondition-CSharp/Models/SharedCounter.cs:103-108 | all three counters become 0 |
| SharedCounter.RunConcurrentIncrements | 02-Sincronizacao/RaceCondition-CSharp/Examples/02-CounterRaceCondition.cs:82-120 | threads x increments whole increments, in any order, add exactly threads x increments to the chosen counter and leave the other two unchanged; for the unsafe counter this is only the run without interleaving |
| SharedCounter.UnsafeRunBounded | RaceCondition-CSharp/Models/SharedCounter.cs:36-44 | however the load and store halves of concurrent `++` interleave, the counter never exceeds start + completed increments, and is above the start once one has completed: increments can be lost, never gained |
| SharedCounter.SequentialStores | RaceCondition-CSharp/Models/SharedCounter.cs:36-44 | n increments run whole complete n stores |
| SharedCounter.SequentialLosesNothing | RaceCondition-CSharp/Models/SharedCounter.cs:36-44 | n increments run whole, in any order of the threads, are a valid interleaving and add exactly n |
| SharedCounter.LostIncrement | 02-Sincronizacao/RaceCondition-CSharp/Examples/02-CounterRaceCondition.cs:59-62 | two threads that both read 100 before either writes leave 101 after two completed increments |
| SharedCounter.RunUnsafeSteps | RaceCondition-CSharp/Models/SharedCounter.cs:36-44 | executing the interleaved halves on the class's field leaves it at `UnsafeRun` of the old value; the other two counters are unchanged |
| SharedCounter.CounterDemo | 02-Sincronizacao/RaceCondition-CSharp/Examples/02-CounterRaceCondition.cs:26-47 | 20 threads' 200,000 unsafe increments, however interleaved, leave between 1 and 200,000 (exactly 200,000 only without interleaving); the lock and `Interlocked` runs give exactly 200,000 |
| SharedCounter.CompareExchangeDemo | 02-Sincronizacao/RaceCondition-CSharp/Examples/02-CounterRaceCondition.cs:164-176 | after Add(100), (100, 200) returns 100 and stores 200; (100, 300) returns 200 and leaves 200 |
| BankAccount.BankAccount.constructor | 02-Sincronizacao/RaceCondition-CSharp/Models/BankAccount.cs:21-24 | the balance is the initial balance |
| BankAccount.BankAccount.Balance | 02-Sincronizacao/RaceCondition-CSharp/Models/BankAccount.cs:15 | returns the balance and changes nothing |
| BankAccount.BankAccount.DepositUnsafe | 02-Sincronizacao/RaceCondition-CSharp/Models/BankAccount.cs:31-39 | run alone, the read-add-write adds exactly the amount |
| BankAccount.BankAccount.WithdrawUnsafe | 02-Sincronizacao/RaceCondition-CSharp/Models/BankAccount.cs:47-57 | run alone, succeeds exactly when the balance covers the amount, subtracting it; otherwise false with the balance unchanged |
| BankAccount.BankAccount.DepositSafe | 02-Sincronizacao/RaceCondition-CSharp/Models/BankAccount.cs:64-74 | the balance grows by exactly the amount |
| BankAccount.BankAccount.WithdrawSafe | 02-Sincronizacao/RaceCondition-CSharp/Models/BankAccount.cs:82-94 | true and the amount subtracted exactly when the balance covers it, otherwise false and unchanged; after a success the balance is not negative |
| BankAccount.BankAccount.Reset | 02-Sincronizacao/RaceCondition-CSharp/Models/BankAccount.cs:100-106 | the balance becomes the given value |
| BankAccount.Perform | 02-Sincronizacao/RaceCondition-CSharp/Models/BankAccount.cs:64-94 | locked deposits and withdrawals, in any order, leave the balance and success count that `Run` gives for that order |
| BankAccount.DepositsAccumulate | 02-Sincronizacao/RaceCondition-CSharp/Examples/01-BankAccountRaceCondition.cs:63-100 | D deposits of a from i, in any order, give i + D·a: no deposit is lost |
| BankAccount.WithdrawalsBounded | 02-Sincronizacao/RaceCondition-CSharp/Examples/01-BankAccountRaceCondition.cs:148-182 | withdrawals of a > 0 from i >= 0: exactly min(attempts, i / a) succeed, successes·a <= i, and the balance is i minus what they took, never negative |
| BankAccount.WithdrawalsSucceed | 02-Sincronizacao/RaceCondition-CSharp/Examples/01-BankAccountRaceCondition.cs:148-182 | withdrawals of a > 0 from i >= 0: exactly min(attempts, i / a) succeed and the balance is i minus what they took |
| BankAccount.WithdrawStep | 02-Sincronizacao/RaceCondition-CSharp/Models/BankAccount.cs:86-90 | one more locked withdrawal succeeds exactly when fewer than i / a have, keeping the count and balance formulas |
| BankAccount.CoveredIff | 02-Sincronizacao/RaceCondition-CSharp/Models/BankAccount.cs:86-90 | after s <= i / a withdrawals of a, the balance covers another one exactly when s < i / a |
| BankAccount.BalanceNeverNegative | 02-Sincronizacao/RaceCondition-CSharp/Models/BankAccount.cs:64-94 | with non-negative deposits, a non-negative balance stays non-negative under any sequence of locked operations |
| BankAccount.DepositDemo | 02-Sincronizacao/RaceCondition-CSharp/Examples/01-BankAccountRaceCondition.cs:37-40 | 10 x 100 deposits of 1.00 on 1000.00 give 2000.00 |
| BankAccount.WithdrawalDemo | 02-Sincronizacao/RaceCondition-CSharp/Examples/01-BankAccountRaceCondition.cs:131-132 | five locked withdrawals of 30.00 from 100.00: exactly 3 succeed and 10.00 remain |
| BankAccount.BankAccountExample.constructor | 02-Sincronizacao/RaceCondition-CSharp/Solutions/01-LockSolution.cs:258-261 | stores the initial balance |
| BankAccount.BankAccountExample.Balance | 02-Sincronizacao/RaceCondition-CSharp/Solutions/01-LockSolution.cs:247-256 | reads the balance without changing it |
| BankAccount.BankAccountExample.Deposit | 02-Sincronizacao/RaceCondition-CSharp/Solutions/01-LockSolution.cs:263-269 | adds exactly the amount |
| BankAccount.BankAccountExample.Withdraw | 02-Sincronizacao/RaceCondition-CSharp/Solutions/01-LockSolution.cs:271-282 | subtracts and returns true exactly when the balance covers the amount; otherwise false, balance unchanged |
| BankAccount.LockBasicsDemo | 02-Sincronizacao/RaceCondition-CSharp/Solutions/01-LockSolution.cs:51-74 | 5 x 100 deposits of 10.00 on 1000.00 give 1000.00 + 5·100·10.00 |
| SharedCache.InsertIfAbsentMeaning | RaceCondition-CSharp/Models/SharedCache.cs:71-81 | an absent key is inserted with its value, a present key changes nothing, and every other entry is untouched |
| SharedCache.AddAllMeaning | RaceCondition-CSharp/Models/SharedCache.cs:71-81 | after any sequence of adds the keys are the old keys plus the keys added, old entries keep their values, and a new key holds the value of its first add |
| SharedCache.AddAllCount | RaceCondition-CSharp/Models/SharedCache.cs:22-32 | after adds into an empty cache, the count is the number of distinct keys added (the number of adds when the keys are distinct) |
| SharedCache.SharedCache.constructor | RaceCondition-CSharp/Models/SharedCache.cs:13-15 | the three dictionaries start empty |
| SharedCache.SharedCache.UnsafeCount | RaceCondition-CSharp/Models/SharedCache.cs:22 | the number of entries of the unsafe dictionary |
| SharedCache.SharedCache.LockCount | RaceCondition-CSharp/Models/SharedCache.cs:27 | the number of entries of the shared locked dictionary |
| SharedCache.SharedCache.ThreadSafeCount | RaceCondition-CSharp/Models/SharedCache.cs:32 | the number of entries of the concurrent dictionary |
| SharedCache.SharedCache.AddUnsafe | RaceCondition-CSharp/Models/SharedCache.cs:40-47 | as one step, insert-if-absent on its own dictionary only |
| SharedCache.SharedCache.GetUnsafe | RaceCondition-CSharp/Models/SharedCache.cs:53-60 | the stored value, or none for a missing key; changes nothing |
| SharedCache.SharedCache.AddWithLock | RaceCondition-CSharp/Models/SharedCache.cs:71-81 | insert-if-absent on the shared locked dictionary; never overwrites; the other two dictionaries are unchanged |
| SharedCache.SharedCache.GetWithLock | RaceCondition-CSharp/Models/SharedCache.cs:86-96 | the stored value, or none; changes nothing |
| SharedCache.SharedCache.AddWithReaderWriterLock | RaceCondition-CSharp/Models/SharedCache.cs:107-122 | insert-if-absent on the same dictionary as `AddWithLock` |
| SharedCache.SharedCache.GetWithReaderWriterLock | RaceCondition-CSharp/Models/SharedCache.cs:128-143 | looks up the same dictionary as `GetWithLock` |
| SharedCache.SharedCache.AddThreadSafe | RaceCondition-CSharp/Models/SharedCache.cs:155-158 | `TryAdd`: insert-if-absent on the concurrent dictionary |
| SharedCache.SharedCache.GetThreadSafe | RaceCondition-CSharp/Models/SharedCache.cs:164-168 | the stored value, or none |
| SharedCache.SharedCache.GetOrAddThreadSafe | RaceCondition-CSharp/Models/SharedCache.cs:174-177 | the existing value if present, otherwise `factory(key)`, which is stored; afterwards the key maps to the value returned |
| SharedCache.SharedCache.ClearAll | RaceCondition-CSharp/Models/SharedCache.cs:184-192 | all three dictionaries become empty |
| SharedCache.AddAllWithLock | RaceCondition-CSharp/Models/SharedCache.cs:71-81 | a sequence of locked adds leaves the dictionary that `AddAll` gives |
| SharedCache.DistinctKeysDemo | RaceCondition-CSharp/Models/SharedCache.cs:71-143 | distinct keys added with the lock variant give that many entries, and the reader-writer lookup sees the stored value |
| ReaderWriter.SharedResource.Plain | 02-Sincronizacao/RaceCondition-CSharp/Solutions/04-ReaderWriterLockSolution.cs:220 | `SharedResource` starts as "Inicial" |
| ReaderWriter.SharedResource.WithLock | 02-Sincronizacao/RaceCondition-CSharp/Solutions/04-ReaderWriterLockSolution.cs:305 | `SharedResourceWithLock` starts as "Initial" |
| ReaderWriter.SharedResource.WithRWLock | 02-Sincronizacao/RaceCondition-CSharp/Solutions/04-ReaderWriterLockSolution.cs:329 | `SharedResourceWithRWLock` starts as "Initial" |
| ReaderWriter.SharedResource.Read | 02-Sincronizacao/RaceCondition-CSharp/Solutions/04-ReaderWriterLockSolution.cs:223-234 | returns the value and changes nothing |
| ReaderWriter.SharedResource.Write | 02-Sincronizacao/RaceCondition-CSharp/Solutions/04-ReaderWriterLockSolution.cs:236-247 | the value becomes the one written |
| ReaderWriter.WriteThenRead | 02-Sincronizacao/RaceCondition-CSharp/Solutions/04-ReaderWriterLockSolution.cs:223-247 | a read after `Write(v)` returns v |
| ReaderWriter.InitialReads | 02-Sincronizacao/RaceCondition-CSharp/Solutions/04-ReaderWriterLockSolution.cs:220-329 | fresh resources read "Inicial", "Initial" and "Initial" |
| ReaderWriter.LastWrittenIsLatestWrite | 02-Sincronizacao/RaceCondition-CSharp/Solutions/04-ReaderWriterLockSolution.cs:236-247 | after a write that no later call overwrites, the resource holds the value it wrote |
| ReaderWriter.LastWrittenWithoutWrites | 02-Sincronizacao/RaceCondition-CSharp/Solutions/04-ReaderWriterLockSolution.cs:223-234 | reads alone leave the initial value in place |
| ReaderWriter.RunOperations | 02-Sincronizacao/RaceCondition-CSharp/Solutions/04-ReaderWriterLockSolution.cs:195-210 | every read returns the value of the latest preceding write (or the initial value), and the resource ends with the last write |
| ReaderWriter.LazyCache.constructor | 02-Sincronizacao/RaceCondition-CSharp/Solutions/04-ReaderWriterLockSolution.cs:257 | the cache starts empty |
| ReaderWriter.LazyCache.GetOrAdd | 02-Sincronizacao/RaceCondition-CSharp/Solutions/04-ReaderWriterLockSolution.cs:260-295 | on a hit, the cached value and the factory not run; on a miss, the factory's value, stored under the key; the factory runs exactly when the key was absent, and no entry is overwritten |
| ReaderWriter.FactoryAtMostOncePerKey | 02-Sincronizacao/RaceCondition-CSharp/Solutions/04-ReaderWriterLockSolution.cs:260-295 | over any sequence of calls: every call returns what the cache finally holds for its key, so all calls on a key agree; the factory runs only for keys absent at the start and at most once per key; existing entries never change |
| ReaderWriter.RunCallsKeepsEntries | 02-Sincronizacao/RaceCondition-CSharp/Solutions/04-ReaderWriterLockSolution.cs:260-295 | entries present at the start are never changed by any sequence of calls |
| ReaderWriter.RunCallsResults | 02-Sincronizacao/RaceCondition-CSharp/Solutions/04-ReaderWriterLockSolution.cs:260-295 | every call returns what the cache finally holds for its key |
| ReaderWriter.RunCallsInvoked | 02-Sincronizacao/RaceCondition-CSharp/Solutions/04-ReaderWriterLockSolution.cs:260-295 | the factory runs only for keys absent at the start, and never for a key an earlier call already asked for |
| ReaderWriter.LazyCacheDemo | 02-Sincronizacao/RaceCondition-CSharp/Solutions/04-ReaderWriterLockSolution.cs:114-138 | five calls for "chave1" all return "Dados carregados" and the data is loaded once |
| BoundedBuffer.ReplayIsFifo | 02-Sincronizacao/RaceCondition-CSharp/Solutions/06-MonitorSolution.cs:297-331 | for every run that completes: initial queue ++ items put == items taken ++ final queue (the items taken are a prefix of those put, in order), one item per `Take`, and the queue never exceeds the capacity |
| BoundedBuffer.BoundedBuffer.constructor | 02-Sincronizacao/RaceCondition-CSharp/Solutions/06-MonitorSolution.cs:292-295 | an empty buffer with the given capacity |
| BoundedBuffer.BoundedBuffer.Count | 02-Sincronizacao/RaceCondition-CSharp/Solutions/06-MonitorSolution.cs:281-290 | the queue length, never above the capacity; changes nothing |
| BoundedBuffer.BoundedBuffer.Put | 02-Sincronizacao/RaceCondition-CSharp/Solutions/06-MonitorSolution.cs:297-312 | proceeds only below capacity, then appends the item at the tail; the queue stays what was put and not yet taken |
| BoundedBuffer.BoundedBuffer.Take | 02-Sincronizacao/RaceCondition-CSharp/Solutions/06-MonitorSolution.cs:314-331 | proceeds only when non-empty, then removes and returns the head |
| BoundedBuffer.Perform | 02-Sincronizacao/RaceCondition-CSharp/Solutions/06-MonitorSolution.cs:297-331 | performing the calls of a run that completes leaves the queue and the items taken that `Replay` gives |
| BoundedBuffer.ProducerConsumer | 02-Sincronizacao/RaceCondition-CSharp/Solutions/06-MonitorSolution.cs:238-265 | capacity 5, 1..10 put and ten takes, in any interleaving that completes: the consumer gets 1..10 in order and the buffer ends empty |
| BoundedBuffer.PutThenTake | 02-Sincronizacao/RaceCondition-CSharp/Solutions/06-MonitorSolution.cs:307-324 | `Put` then `Take` on an empty buffer returns the item and leaves it empty |
| Semaphore.DatabaseConnectionPool.constructor | RaceCondition-CSharp/Solutions/03-SemaphoreSolution.cs:193-197 | a new pool has all permits free and hands out id 1 first |
| Semaphore.DatabaseConnectionPool.AcquireConnection | RaceCondition-CSharp/Solutions/03-SemaphoreSolution.cs:199-205 | needs a free permit and consumes one; the connection's id is the counter before the increment, appended to the ids issued; free + outstanding stays the maximum |
| Semaphore.DatabaseConnectionPool.ReleaseConnection | RaceCondition-CSharp/Solutions/03-SemaphoreSolution.cs:207-210 | gives back exactly one permit unless all are free, which `SemaphoreFullException` rejects |
| Semaphore.DatabaseConnection.constructor | RaceCondition-CSharp/Solutions/03-SemaphoreSolution.cs:226-230 | stores the id and the pool |
| Semaphore.DatabaseConnection.Dispose | RaceCondition-CSharp/Solutions/03-SemaphoreSolution.cs:232-235 | returns exactly one permit to its pool |
| Semaphore.IdsNumberedFromOne | RaceCondition-CSharp/Solutions/03-SemaphoreSolution.cs:191-205 | until 2^31 - 1 ids, the ids issued are 1, 2, 3, ...: strictly increasing, never reused after a release |
| Semaphore.ServeClients | RaceCondition-CSharp/Solutions/03-SemaphoreSolution.cs:109-128 | clients that each acquire and dispose get ids 1..n and all permits end free |
| Semaphore.ConnectionPoolDemo | RaceCondition-CSharp/Solutions/03-SemaphoreSolution.cs:105-128 | pool of 5 and 10 clients: the last id is 10 and 5 permits end free |
| Semaphore.RateLimiter.constructor | RaceCondition-CSharp/Solutions/03-SemaphoreSolution.cs:247-250 | starts with all `maxRequests` permits |
| Semaphore.RateLimiter.Refill | RaceCondition-CSharp/Solutions/03-SemaphoreSolution.cs:253-261 | the timer tops the count up to the maximum, never beyond it |
| Semaphore.RateLimiter.TryAcquire | RaceCondition-CSharp/Solutions/03-SemaphoreSolution.cs:264-267 | true and one permit consumed exactly when one is free; otherwise false, count unchanged |
| Semaphore.AdmissionBounded | RaceCondition-CSharp/Solutions/03-SemaphoreSolution.cs:247-267 | over any sequence of requests and refills the count stays in [0, max] and the requests allowed never exceed the initial permits plus max per refill; with no refill exactly min(requests, count) are allowed |
| Semaphore.AdmissionWithinBudget | RaceCondition-CSharp/Solutions/03-SemaphoreSolution.cs:247-267 | the count stays in [0, max] and allowed + remaining never exceeds the initial permits plus max per refill |
| Semaphore.AdmissionWithoutRefill | RaceCondition-CSharp/Solutions/03-SemaphoreSolution.cs:264-267 | with no refill exactly min(requests, count) are allowed, each taking one permit |
| Semaphore.Serve | RaceCondition-CSharp/Solutions/03-SemaphoreSolution.cs:253-267 | applying requests and refills leaves the limiter and the allowed count that `Admit` gives |
| Semaphore.RateLimitDemo | RaceCondition-CSharp/Solutions/03-SemaphoreSolution.cs:151-173 | 5 per second and 10 requests waiting up to 3 seconds: 5 pass at once, the refill serves the other 5, and all 10 are allowed |
| CountingSort.FindMax | OpenMP/Count-Sort/count_sort_parallel.cpp:9-14 | the result is an element of the array and no element exceeds it |
| CountingSort.CountOccurrences | OpenMP/Count-Sort/count_sort_parallel.cpp:17-24 | `count[v]` is the number of occurrences of v, for every v in 0..max |
| CountingSort.WriteBack | OpenMP/Count-Sort/count_sort_parallel.cpp:27-32 | the array becomes the expansion of the counts: count[0] zeros, then count[1] ones, and so on |
| CountingSort.RepeatCount | OpenMP/Count-Sort/count_sort_parallel.cpp:29-31 | the inner loop writes v exactly count[v] times and nothing else |
| CountingSort.ExpandSorted | OpenMP/Count-Sort/count_sort_parallel.cpp:27-32 | the expansion of the first k counts is sorted with values in [0, k) |
| CountingSort.ExpandCount | OpenMP/Count-Sort/count_sort_parallel.cpp:27-32 | the expansion holds each v < k exactly count[v] times and nothing else |
| CountingSort.ExpandOccurrences | OpenMP/Count-Sort/count_sort_parallel.cpp:27-32 | the write-back loop's output holds each v < k exactly count[v] times, counted element by element |
| CountingSort.CountingSortCorrect | OpenMP/Count-Sort/count_sort_parallel.cpp:17-32 | for values in [0, max], expanding their counts gives a sorted sequence with the same elements and the same length |
| CountingSort.SortedPermutationUnique | OpenMP/Count-Sort/count_sort_parallel.cpp:27-32 | two sorted sequences with the same elements are equal, so the output is the only sorted rearrangement of the input |
| CountingSort.CountingSort | OpenMP/Count-Sort/count_sort_parallel.cpp:5-33 | on a non-empty array of non-negative values, the array ends sorted and a permutation of its old contents |
| CountingSort.Example | OpenMP/Count-Sort/count_sort_parallel.cpp:36-38 | {4,2,2,8,3,3,1} becomes {1,2,2,3,3,4,8} |
| CountingSort.ExampleOutput | OpenMP/Count-Sort/count_sort_parallel.cpp:36-38 | the only sorted rearrangement of the example input is {1,2,2,3,3,4,8} |
| GuardedSearch.ParallelSearch | 04-Paralelismo/OpenMP/Parallel-Search/parallel_search.cpp:5-21 | under any schedule: -1 exactly when the target is absent, otherwise an in-range index holding it, namely the first match in schedule order (never overwritten) |
| GuardedSearch.SequentialSearch | 04-Paralelismo/OpenMP/Parallel-Search/parallel_search.cpp:10-15 | under sequential order the result is the smallest matching index |
| GuardedSearch.Example | 04-Paralelismo/OpenMP/Parallel-Search/parallel_search.cpp:24-28 | 6 in {5,3,8,2,9,1,4,7,6} is found at 8 under every schedule |
| OverwritingSearch.ParallelSearch | parallel_search.cpp:5-21 | under any schedule: -1 exactly when the target is absent, otherwise an in-range index holding it, namely the last match in schedule order |
| OverwritingSearch.SequentialSearch | parallel_search.cpp:10-15 | under sequential order the result is the largest matching index |
| OverwritingSearch.Example | parallel_search.cpp:23-27 | 6 in {5,3,8,2,9,1,4,7,6} is found at 8 under every schedule |
| ChunkedSearch.ChunksContiguous | Divide-and-Conquer/main.c:80-91 | the chunks [t·step, (t+1)·step), the last ending at n, lie end to end from 0 to n, even when n < NUM_THREADS |
| ChunkedSearch.ContiguousOrdered | Divide-and-Conquer/main.c:80-91 | a later chunk starts where an earlier one has ended |
| ChunkedSearch.ContiguousCoversUpTo | Divide-and-Conquer/main.c:80-91 | every index below the end of chunk k lies in one of chunks 0..k |
| ChunkedSearch.ContiguousPartition | Divide-and-Conquer/main.c:80-91 | the chunks cover [0, n), are pairwise disjoint, and stay inside [0, n) |
| ChunkedSearch.Partition | Divide-and-Conquer/main.c:80-91 | fills one chunk per thread as the loop does; the chunks are contiguous from 0 to the array size |
| ChunkedSearch.FirstMatchMeaning | Divide-and-Conquer/main.c:29-38 | a worker's first match is -1 exactly when its chunk lacks the element, otherwise the first index of the chunk holding it |
| ChunkedSearch.SearchState.constructor | Divide-and-Conquer/main.c:75-77 | result -1, done false, nothing written |
| ChunkedSearch.SearchState.Record | Divide-and-Conquer/main.c:31-36 | the first caller records its index and sets done; later callers change nothing |
| ChunkedSearch.LinearSearch | Divide-and-Conquer/main.c:23-42 | the worker reads only its chunk and records its first match unless done is already set |
| ChunkedSearch.FirstWriterMeaning | Divide-and-Conquer/main.c:29-37 | whatever the order, a result other than -1 indexes the element; -1 means no chunk that ran holds it |
| ChunkedSearch.RunWorkers | Divide-and-Conquer/main.c:93-105 | workers run in any order leave the result of the first one that finds the element, written at most once |
| ChunkedSearch.FirstWriterFindsElement | Divide-and-Conquer/main.c:70-109 | with the partition and every worker running, the result is -1 exactly when the element is absent and otherwise indexes it |
| ChunkedSearch.Search | Divide-and-Conquer/main.c:75-109 | partition plus workers in any order: -1 exactly when absent, otherwise an index holding the element; with the element in the last slot it is always found |
| DivideAndConquer.ArraySize | Divide-and-Conquer/main.c:53-57 | a positive argument is the size, otherwise the 1,000,000 default |
| DivideAndConquer.SearchForElement | Divide-and-Conquer/main.c:70-109 | with 1981202369 in the last slot, 8 workers in any order find it at an index holding it |
| StaticArraySearch.ChunkBoundsFitInt | main.c:66-77 | with 16 threads and 1,410,065,408 elements the step is 88,129,088 and every chunk bound fits in an `int` |
| StaticArraySearch.SearchForElement | main.c:56-94 | with the element in the last slot, 16 workers in any order find it |
| PrioritySum.SumToClosedForm | 01-Fundamentos/Pthreads-Course/priority/priority.c:9-13 | 1 + ... + N equals N(N+1)/2, and 0 for N <= 0 |
| PrioritySum.SumToMonotone | 01-Fundamentos/Pthreads-Course/priority/priority.c:10-13 | the sum never decreases as N grows |
| PrioritySum.SumFitsInt64 | 01-Fundamentos/Pthreads-Course/priority/priority.c:10-13 | for every `int` N the sum is non-negative and fits in a `long long` |
| PrioritySum.CalculateSum | 01-Fundamentos/Pthreads-Course/priority/priority.c:8-13 | the loop's sum stays within `long long` and ends as 1 + ... + N = N(N+1)/2; 0 when N <= 0 |
| PrioritySum.PrioritySums | 01-Fundamentos/Pthreads-Course/priority/priority.c:20-34 | the five threads (1e6..5e6) compute 500000500000, 2000001000000, 4500001500000, 8000002000000 and 12500002500000 |

## Left out

- Thread creation and joining, `Thread.Sleep`, `Stopwatch` timing, the console output and the performance comparisons. These are timing and I/O, not logic.
- Lost updates under interleaving, except for the unsafe counter. `DepositUnsafe`, `WithdrawUnsafe` and `AddUnsafe`/`GetUnsafe` are modelled by their effect when each call runs alone; the lost deposits, overdrafts and dictionary corruption that interleaving causes are not modelled. `IncrementUnsafe` is also modelled split into its load and store halves (`UnsafeRun`, `RunUnsafeSteps`), which do capture lost increments.
- SharedCounter.RunConcurrentIncrements: for the `Unsafe` strategy it runs each `IncrementUnsafe` whole, so its exact total holds only when no two increments interleave. `CounterDemo` therefore runs the unsafe test through `RunUnsafeSteps`, which bounds the total without claiming it.
- Reader concurrency under `ReaderWriterLockSlim`, `Monitor.Wait`/`PulseAll` wake-ups, `Monitor.TryEnter` timeouts and the deadlock demonstration. Each locked call is one atomic step, and each blocking wait is a precondition of `Put`, `Take` and `AcquireConnection`.
- Semaphore.RateLimiter.TryAcquire: the timeout is not a clock. A refill that arrives during the wait is a `Refill` call ordered before the request.
- Semaphore.RateLimiter.Refill: the timer's non-atomic read of `CurrentCount` followed by `Release` is modelled as one step. The timer period and the clock are left out.
- Semaphore.DatabaseConnectionPool.ReleaseConnection: .NET throws `SemaphoreFullException` when all permits are already free. The model reports `ok == false` and leaves the state unchanged.
- The `Dispose` methods of the pool, the rate limiter, the caches and the resources only free lock objects and timers, so they are not modelled.
- The concurrency hazards in `SharedCache` are not modelled. `AddWithLock` and `AddWithReaderWriterLock` guard the same dictionary with different locks, and `ClearAll` clears the concurrent dictionary outside the lock. The model gives each call its sequential meaning on the shared dictionary.
- ReaderWriter.LazyCache.GetOrAdd: the model takes the whole call as one atomic step, justified by the upgradeable read lock's exclusivity (one holder at a time, no writers while it is held). The double-check under the write lock is therefore dead. The model does not prove this exclusion; it assumes it by making the call atomic.
- SharedCache.SharedCache.GetUnsafe, `GetWithLock`, `GetWithReaderWriterLock` and `GetThreadSafe` return `None` for a missing key, where C# returns `default`. A C# caller cannot tell a missing key from a stored default value; the model can.
- Value factories (`LazyCache`, `GetOrAddThreadSafe`) are pure Dafny functions. Their side effects and any exceptions they throw are left out.
- `SharedCounter.GetSummary` and the other string-formatting helpers are printing only.
- `Interlocked.Exchange` on object references, and the float and double overloads, are listed in the demonstration but not used on integers.
- Read/write mixes with a seeded `Random.NextDouble`: the choice of read or write is the parameter `ops` of `RunOperations`.
- C# `decimal` is represented as integer cents. Decimal overflow (`OverflowException` above about 7.9·10^28) is not modelled.
- BankAccount.BankAccount.Balance and the other getters ignore torn reads: a `decimal` read without the lock is treated as atomic.
- Integer width in the OpenMP and C kernels:
  - `CountingSort.CountingSort`, `CountOccurrences` and `WriteBack` use unbounded integers, so an `int` overflow of `maxElement + 1`, a count or `index` is not modelled;
  - a negative element or an empty array is undefined behaviour in the source and is excluded by the precondition.
- The parallel loops' scheduling: OpenMP's distribution of iterations among threads is the parameter `schedule`, and the counting loop's atomic increments are run one after another.
- The array contents produced by `rand()` are a parameter of the searches.
- DivideAndConquer.ArraySize:
  - the `(int)v` truncation of a size argument above `INT_MAX` is not modelled;
  - `main` reads `argc`/`argv` without declaring them, so the argument path does not compile as written;
  - the `malloc` failure path is not modelled.
- StaticArraySearch.SearchForElement: the 1,410,065,408-element static array (about 5.6 GB) is a sequence. Memory limits are not modelled.
- ChunkedSearch.RunWorkers: each worker runs whole, in some order of the thread ids. A worker's only shared effect is its one mutex-guarded write, so interleaving its scan with other workers cannot change the outcome.
- PrioritySum.CalculateSum: N = `INT_MAX` is excluded. There the final `i++` overflows `int`, which is undefined behaviour in C.
- The `SCHED_FIFO` policy and the thread priorities in `priority.c` are left out. They change when threads run, not what they compute.
