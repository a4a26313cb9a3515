# mxr TLS test, modelled in Dafny

This project models the mxr runtime's thread-local storage (TLS) test program,
`system/utest/mxr-tls/tls.c`, and proves what that test relies on.

The test exercises three runtime calls:

- `mxr_tls_allocate` hands out slot keys from a process-wide pool until it
  returns the sentinel `MXR_TLS_SLOT_INVALID`;
- `mxr_tls_set` stores a word into one thread's own slot;
- `mxr_tls_get` reads that word back.

`main` collects every key the runtime will give. It then starts 64 threads,
each with its own id. Each thread checks that every key reads as zero. It then
runs 9 patterns x 16 iterations. In each round it sets every key to
`pattern ^ id ^ (iteration << 12) ^ (idx << 16)` and rereads every key.
After joining the threads, `main` runs the same check on its own thread with
id 64.

The model has four modules:

- `TlsRuntime` (`tls_runtime.dfy`) states the runtime's contract, as the test
  uses it.
  - `SlotRegistry` is a class with a counter `next` of slots taken. The
    capacity (`MXR_TLS_SLOT_MAX`) and the number of slots the runtime reserves
    for itself are constructor parameters. The only assumption about them is
    `reserved <= capacity`.
  - `ThreadTable` is a class that owns an `array<bv64>` of `capacity` words.
    All of them are zero when the thread starts.
  - A key is `Slot(index)` or `Invalid`.
- `SlotWrites` (`slot_writes.dfy`) is the specification of a run of writes to
  one table: `Stored(s, ks, vs, n)` is the table after the first n writes.
  Its lemmas prove the following:
  - a write reaches only its own slot;
  - the last write to a slot wins;
  - with distinct values, every slot reads back exactly when no two writes
    share a slot;
  - a round that rewrites the same slots forgets the previous round.
- `Words` (`words.dfy`) defines `Word(n)`, the 64-bit word a `size_t` or
  `uintptr_t` counter holds. It also proves that `Word` is injective below
  2^k and stays below `1 << k`.
- `TlsTest` (`tls_test.dfy`) models the program itself.
  - Each of its loops is an imperative method over the tables: the zero
    check, the set loop, the reread loop, the rounds, the allocation loop,
    the thread loop and `main`.
  - Its lemmas state when the test values are distinct: within a round, for
    different positions; across the 9 x 16 rounds, for the same key; across
    threads, for the final values.
  - `fail(__FUNCTION__, line)` becomes the result `Fail(line)`.

## Model

| member | source | states |
|---|---|---|
| TlsRuntime.SlotRegistry.constructor | system/utest/mxr-tls/tls.c:72-75 | the pool starts with the runtime's reserved slots already taken, `reserved <= next <= capacity` |
| TlsRuntime.SlotRegistry.Allocate | system/utest/mxr-tls/tls.c:73-75 | hands out slot `next` and advances while slots remain; once the pool is exhausted it returns the sentinel on every call and changes nothing; a slot is never handed out twice (it is at or above the old counter and below the new one) |
| TlsRuntime.ThreadTable.constructor | system/utest/mxr-tls/tls.c:41-45 | a thread's table has `capacity` slots, sized up front, every one zero, and belongs to that thread alone (fresh) |
| TlsRuntime.ThreadTable.Get | system/utest/mxr-tls/tls.c:59 | returns exactly the word stored in the key's slot of this thread's table |
| TlsRuntime.ThreadTable.Set | system/utest/mxr-tls/tls.c:55 | the key's slot now holds the value, and every other slot of the table is unchanged |
| SlotWrites.StoredFrame | system/utest/mxr-tls/tls.c:51-56 | per-slot isolation: a slot that none of the writes targets keeps its earlier value |
| SlotWrites.StoredCovers | system/utest/mxr-tls/tls.c:51-56 | a slot that some write targets holds a value independent of the table's earlier contents |
| SlotWrites.StoredLastWrite | system/utest/mxr-tls/tls.c:58-62 | set-then-get round trip: a slot reads back the value of the last write to it |
| SlotWrites.ReadBack | system/utest/mxr-tls/tls.c:58-62 | with pairwise distinct slots, every key rereads the value written to it |
| SlotWrites.StoredCollision | system/utest/mxr-tls/tls.c:58-62 | if two writes with distinct values share a slot, the earlier one no longer reads back |
| SlotWrites.ReadBackIffDistinct | system/utest/mxr-tls/tls.c:58-62 | when the values written are distinct, every key reads back its own value if and only if the keys are pairwise distinct |
| SlotWrites.Overwrite | system/utest/mxr-tls/tls.c:50-56 | rewriting the same keys erases everything the previous round stored |
| SlotWrites.StoredUnchanged | system/utest/mxr-tls/tls.c:41-45 | writing into each slot the value it already holds changes nothing, so a zeroed table equals one whose keys were all written with zero |
| Words.WordBelow | system/utest/mxr-tls/tls.c:54 | a counter below 2^k has no bits at or above bit k, so `idx << 16` loses no bits while idx < 2^48 |
| Words.WordInjective | system/utest/mxr-tls/tls.c:54 | different counters below 2^k (k < 64) give different 64-bit words |
| TlsTest.RoundValuesAt | system/utest/mxr-tls/tls.c:51-54 | a round's value list holds, at position idx, the pattern with the iteration and idx mixed in |
| TlsTest.SlotValuesDistinct | system/utest/mxr-tls/tls.c:52-54 | within one round, keys at different positions (below 2^48) receive different values |
| TlsTest.RoundValuesDistinct | system/utest/mxr-tls/tls.c:51-56 | one round's values are pairwise distinct when there are at most 2^48 keys |
| TlsTest.TestValuesLowBitsDistinct | system/utest/mxr-tls/tls.c:28-32 | the nine test patterns differ pairwise already in their low 12 bits |
| TlsTest.RoundsDistinct | system/utest/mxr-tls/tls.c:48-54 | each of the 9 x 16 rounds writes a different value into a given key, so a reread that returned an earlier round's value would fail |
| TlsTest.FinalValuesDistinct | system/utest/mxr-tls/tls.c:89-101 | thread ids 0..64 (the main thread is 64) leave different final values in every key, so a table that held another thread's writes would be detected |
| TlsTest.ZeroCheck | system/utest/mxr-tls/tls.c:42-45 | true if and only if every key's slot reads zero |
| TlsTest.PatternValue | system/utest/mxr-tls/tls.c:52-54 | the three assignments to `values[idx]` compute the round's value for position idx |
| TlsTest.WriteRound | system/utest/mxr-tls/tls.c:51-56 | `values` holds the round's values, and the table is the old table after those values are written to the keys in order |
| TlsTest.Reread | system/utest/mxr-tls/tls.c:58-62 | true if and only if every key's slot equals the `values` entry for its position |
| TlsTest.Round | system/utest/mxr-tls/tls.c:50-63 | after a round the keys hold this round's values, whatever earlier rounds wrote; distinct keys always pass the reread; a passing reread (with at most 2^48 keys) proves the keys distinct |
| TlsTest.TestEntryPoint | system/utest/mxr-tls/tls.c:37-67 | fails at line 44 if and only if some key does not start at zero; zeroed, distinct keys always pass; a pass proves the keys distinct (up to 2^48 keys); a pass leaves the table holding the last round's values |
| TlsTest.AllocateKeys | system/utest/mxr-tls/tls.c:72-80 | the loop ends; the check at line 77 can never fire; it collects exactly the slots left after the reserved ones, in order, pairwise distinct and never the sentinel; the pool ends exhausted; the cells of `keys` past the collected ones are untouched |
| TlsTest.RunThread | system/utest/mxr-tls/tls.c:90 | a thread started on a zeroed table with distinct keys passes, and then every key holds that thread's own final value while every other slot stays zero |
| TlsTest.StartThreads | system/utest/mxr-tls/tls.c:89-99 | 64 threads, each with a fresh table of its own, no two sharing one; thread j ends with its final value for id j in every key |
| TlsTest.RunTest | system/utest/mxr-tls/tls.c:69-105 | main fails (line 83) if and only if the runtime leaves no slot to user code; otherwise all 64 threads and the main thread (id 64) end holding their own final values in every key; the pool ends exhausted and `keys` past the collected ones is untouched |

## Left out

- Thread creation and joining (`mxr_thread_create` and `mxr_thread_join`,
  tls.c:89-99) are not modelled as concurrency. The threads run one after
  another, each on its own table.
  - Interleaving does not matter for this program. A thread touches only its
    own table, and the allocation loop ends before any thread starts.
  - The failure paths of these calls (lines 92 and 98) are not modelled.
- `sched_yield()` (line 57) only gives other threads a chance to run. It
  cannot change this thread's table, so it has no counterpart.
- `printf` (lines 24, 70 and 103) and `_magenta_exit(-1)` (line 25) are I/O and
  process exit. `fail` is modelled as the method's `Fail(line)` result.
- The runtime's own implementation of `mxr_tls_allocate`, `mxr_tls_get` and
  `mxr_tls_set` (`runtime/tls.h` and its sources) is not part of this model.
  - The model states the contract the test depends on.
  - `MXR_TLS_SLOT_MAX` and the number of slots the runtime reserves are
    parameters, not values.
- `kernel/arch/x86/64/bootstrap16.cpp` is not part of this model. It is kernel
  start-up code that this test does not reach.
- `uintptr_t` and `size_t` are taken to be 64 bits wide (`bv64`). Counters
  enter the word through `Word(n)`, which is n modulo 2^64.
- The global `keys` array and `num_keys` are read by every thread once `main`
  has filled them. `test_entry_point` receives them as a sequence. `volatile`
  has no counterpart.
- `values` in `test_entry_point` is sized to the table's capacity
  (`MXR_TLS_SLOT_MAX`) and allocated fresh per call, as the C stack array is.
- The main thread's table is created when `main` starts, before the
  allocation loop, because it exists from the moment the thread does.
- TlsTest.TestEntryPoint: "a pass proves the keys pairwise distinct" is
  stated only for at most 2^48 keys. Above that, `idx << 16` drops bits and
  two positions can receive the same value.
- TlsTest.Round: the same 2^48 bound applies to "a passing reread proves the
  keys distinct".
- TlsTest.RoundValuesDistinct: stated only for at most 2^48 keys, for the
  same reason.
