# Retry executor and shard table of the Quickwit ingest client, in Dafny

This project models two pieces of Quickwit's client-side ingestion logic and
proves their contracts.

- **Retry executor** (`quickwit-aws/src/retry.rs`). It uses exponential
  backoff with full jitter. An operation's error is tagged `Transient` or
  `Permanent` through the `Retryable` capability. The attempt loop
  `retry_with_mockable_time` returns a success at once and a permanent error
  at once. It retries a transient error after sleeping a random delay in
  `[0, min(base_delay * 2^attempt_count, max_delay))`. After `max_attempts`
  calls it returns the last transient error.
- **Shard table** (`quickwit-ingest/src/ingest_v2/shard_table.rs`). A
  `ShardTableEntry` keeps only the open shards, sorted and deduplicated by
  shard id, plus a round-robin cursor. The `ShardTable` maps
  `(index_id, source_id)` keys to entries, and `insert_shards` replaces a
  key's entry wholesale.

Files:

- `wrappers.dfy`: module `Wrappers`, with `Option` and `Result`.
- `retry.dfy`: module `Retrying`. It holds the recursive functional model
  `RunFrom`/`Run`, the loop `RetryWithMockableTime`, which records the
  delays it sleeps, and the scenario lemmas of the source's tests.
- `shard_table.dfy`: module `Sharding`. It holds entry construction
  (retain, sort, dedup), round-robin selection, and the table operations.

Modelling choices:

- The operation `f` is a function `op: nat -> Result<U, E>`, where `op(k)`
  answers the k-th call (counting from 0). Any scripted sequence of
  responses is one such function (see `Scripted`).
- An error type's `Retryable` capability is a classifier `retryable: E -> bool`.
  The trait's default (never retryable) is `NeverRetryable`.
- A sleep is recorded in the `delays` output. The random draw is an arbitrary
  choice `delay :| delay < ceiling`. Durations are whole milliseconds.
- `ShardTableEntry::new` panics when no shard is open. Here it returns
  `Err(NoOpenShards)`, and `InsertShards` returns that error without
  producing a table. The panic also happens before the map is touched.
- The cursor is a `nat` field of an immutable entry. A round-robin call
  returns the shard and the advanced entry. `NextShardFor` is a producer's
  `find_entry(..).next_shard_round_robin()` with the advanced cursor kept
  in the table.
- The slot `shard_idx % len` is computed by `Slot`, which subtracts the
  length until the cursor falls below it. `SlotIsMod` proves it equals the
  remainder, and `NextShardIsMod` states the source's indexing directly.

## Model

| member | source | states |
|---|---|---|
| Retrying.IntoInner | quickwit/quickwit-aws/src/retry.rs:44-51 | the result is the error wrapped by the tag, whichever tag it is |
| Retrying.IsRetryable | quickwit/quickwit-aws/src/retry.rs:53-60 | a tagged error is retryable exactly when it is the `Transient` tag around its inner error |
| Retrying.NeverRetryable | quickwit/quickwit-aws/src/retry.rs:32-36 | the capability an error type gets by default classifies every error as not retryable |
| Retrying.RetryableExactlyTransient | quickwit/quickwit-aws/src/retry.rs:53-60 | a tagged error is retryable if and only if it is `Transient` |
| Retrying.From | quickwit/quickwit-aws/src/retry.rs:62-72 | tagging keeps the error's retryability and unwrapping the tag gives the error back |
| Retrying.TagRoundTrip | quickwit/quickwit-aws/src/retry.rs:44-72 | re-tagging the inner error of a tagged error by a classification that agrees with its tag rebuilds the tagged error |
| Retrying.DefaultParams | quickwit/quickwit-aws/src/retry.rs:81-89 | the default parameters allow jitter (both delays positive), allow at least one attempt and keep the base delay below the cap |
| Retrying.DefaultCeilingSchedule | quickwit/quickwit-aws/src/retry.rs:28-30 | the defaults are 30 attempts, 250 ms base and 20000 ms cap (50 ms and 1000 ms in test builds); the production ceiling doubles from 500 ms up to 16000 ms over calls 1 to 6 and stays at 20000 ms from call 7 on |
| Retrying.Ceiling | quickwit/quickwit-aws/src/retry.rs:127-129 | the ceiling is the smaller of `base_delay * 2^attempt` and `max_delay`, and it is positive when both delays are |
| Retrying.CeilingMonotone | quickwit/quickwit-aws/src/retry.rs:127-129 | the ceiling never decreases from one attempt to a later one |
| Retrying.CeilingDoubles | quickwit/quickwit-aws/src/retry.rs:127-129 | below the cap the ceiling doubles with each attempt |
| Retrying.RunFrom | quickwit/quickwit-aws/src/retry.rs:105-140 | from a given attempt count, the loop returns the response to the first call after which it may stop; every earlier call failed transiently below the attempt limit |
| Retrying.Run | quickwit/quickwit-aws/src/retry.rs:96-141 | at least one and at most `max(max_attempts, 1)` calls; the result is the last call's response; an error comes back only if it is permanent, or the attempt limit was reached, or `max_attempts` is 0 and the one call failed; all earlier calls failed transiently |
| Retrying.RunIsFirstStop | quickwit/quickwit-aws/src/retry.rs:105-125 | the first stopping response fully determines the executor's result and call count |
| Retrying.SuccessShortCircuits | quickwit/quickwit-aws/src/retry.rs:111-114 | a first success is returned after exactly one call |
| Retrying.PermanentStopsRetrying | quickwit/quickwit-aws/src/retry.rs:115-118 | k-1 transient errors and then a permanent one give exactly k calls and the permanent error |
| Retrying.ExhaustionReturnsLastError | quickwit/quickwit-aws/src/retry.rs:119-125 | `max_attempts` transient errors in a row give exactly `max_attempts` calls and the last of those errors |
| Retrying.LastAttemptCanSucceed | quickwit/quickwit-aws/src/retry.rs:105-125 | `max_attempts - 1` transient errors and then a success give the success after `max_attempts` calls |
| Retrying.DefaultClassificationNeverRetries | quickwit/quickwit-aws/src/retry.rs:32-36 | with the trait's default classification, exactly one call is made |
| Retrying.RunFromIgnoresUnconsumed | quickwit/quickwit-aws/src/retry.rs:106-118 | responses to calls the loop never makes do not change its outcome, from any attempt count |
| Retrying.RunIgnoresUnconsumed | quickwit/quickwit-aws/src/retry.rs:106-118 | two operations that agree on the calls the executor makes give the same outcome |
| Retrying.RetryWithMockableTime | quickwit/quickwit-aws/src/retry.rs:96-141 | the loop returns the functional model's result and call count; it sleeps once per retry (calls - 1 delays); the delay after the k-th call lies in `[0, Ceiling(k))` |
| Retrying.DoesRetry | quickwit/quickwit-aws/src/retry.rs:198-204 | a transient error and then a success give the success after two calls |
| Retrying.StopsRetryingOnNonRetryableError | quickwit/quickwit-aws/src/retry.rs:206-212 | a permanent error followed by a success gives the permanent error after one call |
| Retrying.RetriesAtMostMaxAttemptsTimes | quickwit/quickwit-aws/src/retry.rs:214-224 | 30 transient errors numbered 0..29 and then a success give `Transient(29)` after 30 calls |
| Retrying.RetriesUpToMaxAttemptsTimes | quickwit/quickwit-aws/src/retry.rs:226-233 | 29 transient errors and then a success give the success after 30 calls |
| Sharding.RetainOpen | quickwit/quickwit-ingest/src/ingest_v2/shard_table.rs:41 | a shard is kept if and only if it was in the input and is open |
| Sharding.InsertById | quickwit/quickwit-ingest/src/ingest_v2/shard_table.rs:42 | inserting into a sequence sorted by id keeps it sorted and adds exactly that shard |
| Sharding.SortById | quickwit/quickwit-ingest/src/ingest_v2/shard_table.rs:42 | the result is sorted by id and is a permutation of the input |
| Sharding.DedupById | quickwit/quickwit-ingest/src/ingest_v2/shard_table.rs:43 | on sorted input: ids strictly increase, the set of ids is unchanged, every kept shard comes from the input, and the first shard is kept |
| Sharding.DedupKeepFirst | quickwit/quickwit-ingest/src/ingest_v2/shard_table.rs:43 | dropping a shard whose id equals its predecessor's keeps the ids strictly increasing and the id set unchanged |
| Sharding.DedupPrepend | quickwit/quickwit-ingest/src/ingest_v2/shard_table.rs:43 | keeping a shard with a new, smaller id keeps the ids strictly increasing and the id set unchanged |
| Sharding.NewEntry | quickwit/quickwit-ingest/src/ingest_v2/shard_table.rs:35-51 | an entry is built if and only if some input shard is open; it is non-empty, all open, strictly increasing by id, has exactly the ids of the open input shards, holds only input shards, and its cursor is 0 |
| Sharding.NextShardRoundRobin | quickwit/quickwit-ingest/src/ingest_v2/shard_table.rs:54-57 | the shard handed out belongs to the entry; the cursor advances by one and the shard list is unchanged |
| Sharding.NextShardIsMod | quickwit/quickwit-ingest/src/ingest_v2/shard_table.rs:54-57 | the shard handed out is the one at index `cursor mod length`, the cursor value read before the increment |
| Sharding.RoundRobinPicks | quickwit/quickwit-ingest/src/ingest_v2/shard_table.rs:54-57 | k consecutive calls hand out k shards |
| Sharding.RoundRobinPicksSlot | quickwit/quickwit-ingest/src/ingest_v2/shard_table.rs:54-57 | the i-th of consecutive calls reads the slot the cursor reaches after i increments |
| Sharding.RoundRobinPicksAt | quickwit/quickwit-ingest/src/ingest_v2/shard_table.rs:54-57 | the i-th of consecutive calls hands out the shard at `(cursor + i) mod length` |
| Sharding.SlotIsMod | quickwit/quickwit-ingest/src/ingest_v2/shard_table.rs:56 | the slot reached by repeatedly subtracting the length is the remainder `cursor % length` |
| Sharding.FreshEntryCycle | quickwit/quickwit-ingest/src/ingest_v2/shard_table.rs:49-57 | from cursor 0, M calls hand out every shard once in ascending id order, and call M+1 hands out the first again |
| Sharding.RoundRobinWindowFair | quickwit/quickwit-ingest/src/ingest_v2/shard_table.rs:54-57 | from any cursor, M consecutive calls hand out every shard of the entry and none twice |
| Sharding.EmptyTable | quickwit/quickwit-ingest/src/ingest_v2/shard_table.rs:70-74 | the default table has no entry for any key |
| Sharding.ContainsEntry | quickwit/quickwit-ingest/src/ingest_v2/shard_table.rs:77-84 | holds exactly when the key is in the map; in a valid table the contained entry has at least one shard |
| Sharding.FindEntry | quickwit/quickwit-ingest/src/ingest_v2/shard_table.rs:77-93 | a lookup finds an entry if and only if `contains_entry` holds for the key |
| Sharding.InsertShards | quickwit/quickwit-ingest/src/ingest_v2/shard_table.rs:95-103 | succeeds if and only if some shard is open; the key then maps to exactly `new(shards)`: a valid entry with cursor 0, the open ids and only input shards; every other key is unchanged; table validity is kept |
| Sharding.NextShardFor | quickwit/quickwit-ingest/src/ingest_v2/shard_table.rs:54-93 | a producer gets a shard if and only if the key has an entry; the shard is the entry's `shards[cursor % len]`; the key's entry keeps its shards with the cursor advanced by one; the keys, the other entries and table validity are unchanged |
| Sharding.InsertResetsRoundRobin | quickwit/quickwit-ingest/src/ingest_v2/shard_table.rs:95-103 | after re-inserting, the next pick for the key is the open input shard with the smallest id, wherever the old cursor stood |
| Sharding.NewEntryDropsClosedAndDuplicates | quickwit/quickwit-ingest/src/ingest_v2/shard_table.rs:122-163 | whatever the payloads, the input ids 0 (open), 1 (open), 0 (open), 2 (closed) give the entry of ids `[0, 1]` |
| Sharding.TwoShardRoundRobin | quickwit/quickwit-ingest/src/ingest_v2/shard_table.rs:165-167 | three calls on a fresh two-shard entry hand out the first, second and first shard |
| Sharding.ShardTableExample | quickwit/quickwit-ingest/src/ingest_v2/shard_table.rs:122-168 | the table test: after the insert, the key is present, its entry is `[0, 1]`, and round-robin hands out 0, 1, 0 |

## Left out

- Async plumbing is not modelled: `Future`, `async_trait`, the `MockableTime` trait, `TokioTime` and the public `retry` wrapper (which only passes `TokioTime`). Sleeping becomes appending the delay to `delays`.
- Randomness is not modelled: `rand::thread_rng()` is replaced by an arbitrary choice below the ceiling, so the uniform distribution of full jitter is not stated.
- RetryWithMockableTime: requires both delays to be positive. `gen_range(0..0)` panics on a zero ceiling, and that panic is not modelled.
- Tracing is not modelled: the `debug!` and `warn!` diagnostics are not part of any contract.
- Fixed-width integers are not modelled. Attempt counts, cursors and milliseconds are unbounded `nat`, so the model omits the `u64` overflow of `base_delay * 2u64.pow(attempt_count)`, the `as u64`/`as u32` casts and the `usize` wrap-around of `fetch_add`.
- Concurrency is not modelled: the relaxed atomic cursor is a plain field.
- Most protobuf detail is not modelled. `Shard` keeps `shard_id`, a two-valued state (`is_open` lives in a crate outside this model), and the leader and index uid as opaque strings.
- Which duplicate survives deduplication is not specified, because `sort_unstable_by_key` leaves the order of equal ids unspecified. `SortById` is an insertion sort, and the contracts speak only of ids and of membership in the input.
- The `HashMap` is modelled as a Dafny `map`.
- The test-only accessors are left out: `len`, `shards` and `is_empty`. So is the derived `Default` of `ShardTableEntry`, an empty entry that the code never uses.
