# Swap tracker contract: a Dafny model

This project models the Soroban smart contract `SwapTrackerContract` of the
Stellar simple-payment dApp. The contract keeps an append-only log of swap
records in its persistent storage and offers three entry points:

- `record_swap` appends a record and publishes a `("swap",)` event;
- `get_recent_swaps(count)` returns up to `count` records, newest first;
- `get_swap_count` returns how many swaps were recorded.

Files:

- `values.dfy` (module `Values`): the widths of the integers at the contract
  interface, written as subset types of `int`: `U32`, `U64` and `I128`. It also
  holds `Option`, with `UnwrapOr` modelling Rust's `unwrap_or`, and `Min`,
  the clamp that fixes the length of the window `get_recent_swaps` returns.
- `swap_log.dfy` (module `SwapLog`): the log as a plain sequence, oldest
  first. `Recent(log, k)` is the newest-first window: the last `min(k, |log|)`
  entries, reversed. The lemmas here state its properties.
- `swap_tracker.dfy` (module `SwapTracker`): `SwapRecord`, `DataKey`, the
  event type, and the class `SwapTrackerContract`. Three client methods
  replay the source file's three unit tests: `RecordAndRetrieve`,
  `MultipleSwapsOrdering` and `EventEmission`. `EventEmission` is stronger
  than its test: the test only checks that some event was published, the
  method pins down the one exact event. `FreshContract` adds the case of a
  fresh contract, which no test covers. `RecordThenRecent` states the
  newest-first claim from any valid state.

Storage is one key-value store with two kinds of key. The class keeps each
kind in its own field:

- `count: Option<U64>` is the entry under `DataKey::SwapCount`;
- `records: map<U64, SwapRecord<A>>` holds the entries under `DataKey::Swap(i)`;
- `events` is the event sink, an append-only sequence.

`Valid()` is the storage invariant: a `Swap(i)` entry exists exactly when
`i` is below the count. The constructor establishes it and `RecordSwap`
preserves it. `Log()` reads the entries `Swap(0) .. Swap(count - 1)` as a
sequence.

A user's `Address` is the class's type parameter `A`, as nothing in the
contract looks inside it. Asset codes are `string`s.

The doc comment on `record_swap` speaks of a `swap_recorded` event. The code
publishes under the single topic `"swap"`, and the model follows the code.

## Model

| member | source | states |
|---|---|---|
| `SwapTracker.SwapTrackerContract.constructor` | contracts/swap_tracker/src/lib.rs:25-26 | A fresh contract has no `SwapCount` entry, no `Swap(i)` entries and no events, so its log is empty and the storage invariant holds. |
| `SwapTracker.SwapTrackerContract.RecordSwap` | contracts/swap_tracker/src/lib.rs:38-77 | Keeps the storage invariant. The call commits exactly when the old count is below the `u64` maximum. On commit, the new record is stored with its fields unchanged under `Swap(old count)`. No other `Swap(j)` changes. The count becomes old count + 1, the log gains exactly that record at its end, and exactly one event is appended: topic `("swap",)`, data `(user, from_asset, to_asset, amount, timestamp)`. On overflow the call traps and storage and events are as before. |
| `SwapTracker.SwapTrackerContract.GetRecentSwaps` | contracts/swap_tracker/src/lib.rs:83-110 | The parameter `limit` is the source's `count`. Returns exactly `min(limit, total)` records, so no index is skipped. Element `i` is the log entry at `total - 1 - i`: the result is `Recent(Log(), limit)`, the last `min(limit, total)` entries reversed. The method has no `modifies` clause, so storage and events are unchanged. |
| `SwapTracker.SwapTrackerContract.GetSwapCount` | contracts/swap_tracker/src/lib.rs:112-118 | Returns 0 when `SwapCount` is absent and the stored counter otherwise. In a valid state this is the length of the log and the number of `Swap(i)` entries. It changes nothing. |
| `SwapTracker.SwapTrackerContract.Present` | contracts/swap_tracker/src/lib.rs:100-104 | The `if let Some` test on `Swap(index)`. In a valid state, `Swap(i)` is present exactly when `i` is below the stored count (read with default 0), so the test never fails inside the loop's range. |
| `SwapTracker.SwapTrackerContract.CountIsNumberOfRecords` | contracts/swap_tracker/src/lib.rs:47-70 | The storage invariant `Valid()` gives entries `Swap(i)` exactly for `i` below `Total()`, the count read with default 0. Under it, the count equals the number of stored records. |
| `SwapTracker.SwapTrackerContract.Log` | contracts/swap_tracker/src/lib.rs:62-70 | In a valid state, the log read out of storage has exactly as many entries as the stored count. |
| `SwapTracker.KeysBelowCount` | contracts/swap_tracker/src/lib.rs:62-70 | A map whose keys are exactly `0 .. n - 1` has `n` entries. |
| `SwapTracker.Entries` | contracts/swap_tracker/src/lib.rs:62-64 | The records under keys `0 .. n - 1` read as a sequence of length `n`, whose entry `i` is the record stored under `Swap(i)`. |
| `SwapLog.Reverse` | contracts/swap_tracker/src/lib.rs:97-98 | The newest-to-oldest order keeps the length of what it reorders. |
| `SwapLog.ReverseAt` | contracts/swap_tracker/src/lib.rs:97-99 | Position `k` of the reversed log holds the entry at `|log| - 1 - k`, matching `index = total - 1 - i`. |
| `SwapLog.ReverseAppend` | contracts/swap_tracker/src/lib.rs:97-106 | Reversing `s + t` gives `Reverse(t) + Reverse(s)`. |
| `SwapLog.ReverseReverse` | contracts/swap_tracker/src/lib.rs:97-106 | Reversal is its own inverse. |
| `SwapLog.RecentReversed` | contracts/swap_tracker/src/lib.rs:91-106 | A newest-first window read back in reverse is the log's last `min(k, |log|)` entries, oldest first. |
| `SwapLog.Recent` | contracts/swap_tracker/src/lib.rs:91-95 | The window has `min(k, |log|)` entries, the `limit` the source computes. |
| `SwapLog.RecentAt` | contracts/swap_tracker/src/lib.rs:97-105 | Entry `i` of the window is `log[|log| - 1 - i]`, the record the loop fetches at `index = total - 1 - i`. |
| `SwapLog.RecentIsNewestFirst` | contracts/swap_tracker/src/lib.rs:79-106 | Both directions: a sequence is `Recent(log, k)` exactly when it has `min(k, |log|)` entries and entry `i` is `log[|log| - 1 - i]`. |
| `SwapLog.RecentStep` | contracts/swap_tracker/src/lib.rs:98-106 | One more pass of the loop appends the next older entry, `log[|log| - 1 - i]`, to the window of `i` entries. |
| `SwapLog.RecentAfterAppend` | contracts/swap_tracker/src/lib.rs:62-70 | After a record is appended, it heads every non-empty window. The rest of the window is the previous window, one shorter. |
| `SwapLog.RecentPrefix` | contracts/swap_tracker/src/lib.rs:91-95 | The window for a smaller limit is a prefix of the window for a larger one. |
| `SwapLog.RecentAll` | contracts/swap_tracker/src/lib.rs:91-93 | A limit at or above the total returns the whole log, newest first. |
| `SwapLog.RecentClamp` | contracts/swap_tracker/src/lib.rs:91-95 | The window depends on the limit only through `min(k, |log|)`, the clamped `limit` the source loops to. |
| `SwapTracker.FreshContract` | contracts/swap_tracker/src/lib.rs:84-118 | On a fresh contract the count is 0 and every window is empty. |
| `SwapTracker.RecordAndRetrieve` | contracts/swap_tracker/src/lib.rs:127-146 | After one swap the count is 1, and a window of one returns that record with its amount and timestamp unchanged. |
| `SwapTracker.MultipleSwapsOrdering` | contracts/swap_tracker/src/lib.rs:149-170 | After three swaps the count is 3. A window of two has exactly two records, with the amounts 300 and 200 in that order; both are the stored records with every field unchanged. |
| `SwapTracker.EventEmission` | contracts/swap_tracker/src/lib.rs:173-187 | Recording one swap on a fresh contract leaves exactly one event, with topic `("swap",)` and the swap's fields as data. This is stronger than the test, which only checks that the event list is not empty. |
| `SwapTracker.RecordThenRecent` | contracts/swap_tracker/src/lib.rs:38-110 | From any valid state with the count below the `u64` maximum: after one `record_swap`, a window of `k > 0` is the new record followed by the window of `k - 1` taken before the call. |

## Left out

- The Soroban host (`Env`, storage backends, TTL and rent, `symbol_short!` encoding, host `Vec` and `String` representations) is a foreign library. Storage is modelled as the two fields above and the event sink as a sequence.
- `Address` authorisation: the contract never asks for authorisation, so there is nothing to model.
- The test harness (`Env::default`, `register_contract`, `Address::generate`) is left out. Three client methods replay the three tests' calls and assertions on the model, one of them with a stronger assertion; two more client methods state cases the tests do not cover.
- `RecordSwap`: the overflow of `count + 1` is modelled as a trap, which rolls back the invocation. This assumes overflow checks are on, as in Soroban's usual release profile. The build profile is not part of this model; with wrapping arithmetic the count would return to 0 instead.
- `RecordSwap`: within a trapped invocation, the model restores the one storage write made before the overflow. Host-side rollback of anything else is not modelled.
- A stored value of the wrong type under a key (a host conversion error) cannot arise in the model, because each key kind has a field of one type.
