# lfq: a broadcast ring buffer, modelled in Dafny

`lfq` (src/lib.rs) is a multi-producer, multi-consumer broadcast queue kept in a fixed
power-of-two array of cells. Every push claims the next global write position `idx` from an
atomic write pointer. That position is split by the mask `size - 1` into a slot (`modu`,
`idx & mask`) and an epoch (`epoch`, `idx & !mask`). The pushed value is written into that
slot, stamped with that epoch. A reader (`QueueClient`) keeps its own cursor `to_read`. A read
succeeds exactly when the slot still carries the cursor's epoch. A reader that the writers have
lapped sees a later epoch. It then catches up to just past the oldest position still held,
using a margin that doubles at each attempt. While a cell is being written, its epoch word
carries the sentinel bit `1 << 63`.

The model has one module per concern:

- `Words`: 64-bit machine words, bitwise and, or, not, shift, and wrapping add and subtract,
  defined on naturals and related to `%` and powers of two.
- `RoundUp`: `round_up_to_power_of_two`, the or-shift cascade, proved to return the
  smallest power of two at or above its argument. The unit test `rounding` is derived from
  that contract.
- `Cells`: the class `Cell` (epoch word and payload), `SENTINEL_MASK`, and the two mask
  operations applied to an epoch word.
- `Index`: `Queue::size`, `epoch` and `modu` as functions of the mask, and their arithmetic.
- `Ring`: the state of a queue as a value.
  - `Contents(mask, dflt, h)` is what every slot holds after pushing the values `h`.
  - `ReadSlot` is what `Queue::read` returns.
  - `NextLoop` is what one call of `QueueClient::next` returns.
  - Lemmas about these functions say what reads succeed and what `next` does in each case
    (cursor in the window, ahead of the writers, lapped).
- `Queues`: the classes `Queue` and `QueueClient`.
  - Each method is proved against the functions of `Ring`.
  - `Queue.Valid()` says that the cells hold `Contents` of the history of pushes, a ghost
    field, with the write pointer at `size + |history|`.
- `Scenarios`: the single-threaded unit tests, stated on those functions.

Each atomic step of the source is one step of the model, so the model describes a single
thread, or any run whose operations do not overlap.

The doc comments of `try_read_latest` and `read_latest` (src/lib.rs:130-131 and
src/lib.rs:139-140) say that they fail, or block forever, on a queue with nothing written.
The code disagrees. The write pointer starts at `size`, so both read position `size - 1`. That
position is in the first lap (epoch 0), which is exactly the epoch the default cells carry. So
on a fresh queue both return `T::default()` at once. The model follows the code:
`Queue.TryReadLatest` and `QueueClient.Latest` return `LatestValue(dflt, [])`, which is the
default value.

## Model

| member | source | states |
|---|---|---|
| RoundUp.Smear | src/lib.rs:286-301 | the or-shift cascade on `n - 1` sets every bit below its highest set bit: the result is `2^BitLength(n-1) - 1`, below `2^63` |
| RoundUp.RoundUpToPowerOfTwo | src/lib.rs:285-304 | for `1 <= n <= 2^63` the result is a power of two, at least `n`, and no larger than any power of two that is at least `n` |
| RoundUp.RoundedIsLeast | src/lib.rs:285-304 | `2^BitLength(n-1)` is a power of two at least `n` and at most every power of two at least `n` |
| RoundUp.SmallestPowerOfTwoIs | src/lib.rs:285-304 | the three clauses of the rounding contract determine the result: it is `2^k` whenever `2^(k-1) < n <= 2^k` |
| RoundUp.RoundUpIs | src/lib.rs:285-304 | `round_up_to_power_of_two(n)` returns `2^k` when `2^(k-1) < n <= 2^k` |
| RoundUp.Rounding | src/lib.rs:310-333 | the sixteen results of the unit test `rounding` (1 to 1, 5 to 8, ..., 9_223_372_036_854_000_000 to 2^63), derived from the contract of `RoundUpToPowerOfTwo` |
| Cells.SentinelBits | src/lib.rs:27-28 | for an epoch word `x`: `x & SENTINEL_MASK > 0` exactly when the top bit is set, and `x & !SENTINEL_MASK` is `x` with that bit cleared (`x % 2^63`) |
| Cells.Cell.constructor | src/lib.rs:14-19 | a default cell holds the default payload at epoch 0 |
| Cells.Cell.Write | src/lib.rs:32-56 | a cell at epoch `new_epoch - epoch_increment` ends up holding `dat` at epoch `new_epoch` (the sentinel-marked intermediate epoch word is asserted in the body) |
| Index.Modu | src/lib.rs:102-105 | `idx & idx_mask` is a slot index, below the size |
| Index.IndexSplit | src/lib.rs:97-105 | for a power-of-two size, `modu(idx)` is `idx % size` and `epoch(idx)` is `idx` rounded down to a multiple of the size |
| Index.EpochModu | src/lib.rs:97-105 | `epoch(idx) + modu(idx) == idx`, the epoch is a multiple of the size, and first-lap positions have epoch 0 and are their own slot |
| Index.SameSlot | src/lib.rs:97-105 | two positions share a slot if and only if they are a whole number of laps apart, and then their epochs differ by exactly the distance between the positions |
| Index.SlotsDiffer | src/lib.rs:102-105 | positions less than one lap apart use different slots |
| Index.NextLap | src/lib.rs:97-105 | one lap later a position uses the same slot with an epoch higher by the size |
| Index.EpochBounds | src/lib.rs:97-100 | a position's epoch lies within one lap below it |
| Index.MaskOfSize | src/lib.rs:87-88 | a power of two at most `2^63`, less one, is the mask `2^k - 1` of that size |
| Words.MaskLow | src/lib.rs:102-105 | `x & (2^k - 1) == x % 2^k` |
| Words.MaskHigh | src/lib.rs:97-100 | `x & !(2^k - 1) == x - x % 2^k` |
| Ring.ContentsEmpty | src/lib.rs:77-90 | before any push every slot holds the default value at epoch 0 |
| Ring.ContentsPush | src/lib.rs:113-128 | pushing `v` at write pointer `wp` writes `(epoch(wp), v)` into slot `modu(wp)` and leaves every other slot as it was |
| Ring.PushTarget | src/lib.rs:127 | the slot a push writes holds the epoch one lap below the new one, the value `Cell::write` expects to find, and the new epoch is at least the size |
| Ring.Window | src/lib.rs:113-128 | each of the last `size` positions written sits in its own slot with its own epoch and value |
| Ring.ReadReplay | src/lib.rs:170-188 | after the pushes `h`, `read(idx)` is `Ok` if and only if `idx` is one of the last `size` positions, and then it holds the value written there; otherwise it is `Err` of a stored epoch below the write pointer, lower than `epoch(idx)` for a position not yet written and higher for an overwritten one |
| Ring.ReadNewest | src/lib.rs:134-137 | the position just below the write pointer reads back the latest value pushed, or the default one before any push |
| Ring.SentinelRejected | src/lib.rs:172-178 | whatever the slots hold, an epoch word with the sentinel bit set never reads as `Ok`, for every position below the sentinel bit |
| Ring.CatchUpReadable | src/lib.rs:214-216 | with a margin below the size, `catch_up` moves the cursor to `margin` positions past the oldest position still held, and that position reads back the value written there |
| Ring.NextSingleSlot | src/lib.rs:230-257 | on a one-slot queue the loop never runs: `next` returns `None` and keeps the cursor |
| Ring.NextInWindow | src/lib.rs:234-238 | a cursor on one of the last `size` positions gets the value written there and moves up by one |
| Ring.NextAhead | src/lib.rs:240-246 | a cursor at or past the write pointer gets `None` and stays where it is |
| Ring.LaggedCatchUp | src/lib.rs:247-253 | a lapped cursor finds a later epoch; the first attempt catches up with margin 1 and the loop goes on with margin 2 |
| Ring.NextLagged | src/lib.rs:230-257 | with more than two slots a lapped cursor gets the value at the oldest position held plus one and moves past it; with two slots it gets `None` after catching up |
| Queues.Queue.constructor | src/lib.rs:77-90 | `Queue::new(n)` for `n > 0`: as many fresh, distinct default cells at epoch 0 as the smallest power of two at least `n`, and the write pointer at the size |
| Queues.Queue.SlotsAreContents | src/lib.rs:113-128 | on a valid queue the cells hold `Contents` of the values pushed |
| Queues.Queue.Size | src/lib.rs:93-95 | `idx_mask + 1` is the number of cells, `2^log2Size` |
| Queues.Queue.NextWritePtr | src/lib.rs:108-110 | on a valid queue the write pointer is the size plus the number of pushes |
| Queues.Queue.Read | src/lib.rs:172-188 | loads the epoch word of the slot of `idx` through `Cell.Epoch` (the `cell.epoch.load`) and the payload through `Cell.Read` (src/lib.rs:58-66); the result is `ReadSlot` of the current cells: `Ok` of the payload when the slot of `idx` holds `epoch(idx)`, `Err` of the epoch word found otherwise, whose meaning after a history of pushes `Ring.ReadReplay` states |
| Queues.Queue.Push | src/lib.rs:113-128 | claims the write pointer and moves it up by one, writes `(epoch(old), v)` into slot `modu(old)` only, and keeps the queue valid with `v` appended to the history |
| Queues.Queue.TryReadLatest | src/lib.rs:134-137 | returns `Some` of the latest value pushed, or of the default value on a fresh queue |
| Queues.Queue.NewestReads | src/lib.rs:134-137 | the read at `write_ptr - 1` succeeds with the latest value |
| Queues.Queue.ReadLatest | src/lib.rs:142-154 | walking down from `write_ptr - 1`, returns the value at the newest position that reads `Ok`, every position above it having failed |
| Queues.Queue.NewestReadableIsLatest | src/lib.rs:142-154 | on a valid queue that value is the latest value pushed |
| Queues.QueueClient.NewQueue | src/lib.rs:203-210 | a fresh, valid, empty queue of `round_up_to_power_of_two(n)` cells, with the cursor at the first position, the size |
| Queues.QueueClient.Clone | src/lib.rs:196-200 | shares the same queue and copies the cursor |
| Queues.QueueClient.Size | src/lib.rs:219-221 | the size of the shared queue |
| Queues.QueueClient.CatchUp | src/lib.rs:214-216 | sets the cursor to `write_ptr - size + margin`; on a valid queue with a margin below the size, that is a position still held, which reads back its value |
| Queues.QueueClient.Push | src/lib.rs:224-226 | the queue's push: only slot `modu(old)` changes, and the history gains `v` |
| Queues.QueueClient.Next | src/lib.rs:230-257 | the value returned and the new cursor are `NextLoop` of the current cells from margin 1, after at most `log2(size)` attempts |
| Queues.QueueClient.NextAttempt | src/lib.rs:234-253 | one pass of the loop: an `Ok` read returns the value and moves the cursor up by one; an older or in-progress epoch returns `None`; a later epoch catches up with the margin, and then `next` is what the loop returns from the doubled margin |
| Queues.QueueClient.DoubleMargin | src/lib.rs:234-253 | doubling a power-of-two margin below the size stays within the size and within `log2(size)` doublings |
| Queues.QueueClient.Latest | src/lib.rs:274-276 | returns the latest value pushed, or the default value before any push |
| Scenarios.NewQueueSize | src/lib.rs:368 | `new_queue(100)` has 128 slots, mask `2^7 - 1` |
| Scenarios.CountedValue | src/lib.rs:335-337 | after the incrementor's pushes `1, 2, ..., n` (`Counting(n)`), every position `p` past the first lap holds `p - size + 1` |
| Scenarios.NextCounting | src/lib.rs:342-364 | a reader that has not been lapped and is below the write pointer reads the number at its position and moves up by one, so successive reads give consecutive numbers as `Chomp` requires |
| Scenarios.LaggingReader | src/lib.rs:416-421 | after 562 pushes the reader at position 190 has been lapped, and `next` returns `62 + 500 - 127 + 1`; `latest` returns `62 + 500` |

## Left out

- Concurrency is not modelled.
  - The compare-and-swap retry loops of `push` and `Cell::write` are not modelled. The memory orderings and atomicity are not modelled either.
  - Each atomic operation is one step, and no two operations interleave.
  - Races between writers and readers, and the deadlock the source warns about in `Cell::write`, are therefore not covered.
- Queues.Queue.Read: the second epoch load of `read` (src/lib.rs:183-186) is not modelled as a separate step. Without interleaving it sees the same word as the first load.
- Cells.Cell.Write: requires that the cell holds the expected old epoch, so the compare-and-swap succeeds at its first attempt. On a valid queue `Ring.PushTarget` establishes this. The sentinel state between the two stores is visible only inside the method.
- `read_latest_blocking` and `next_blocking` are not modelled. Both spin until a concurrent writer finishes, which a single thread never needs.
  - In the unit tests, `next_blocking` returns what the first `next` returns. `Scenarios.NextCounting` states that result.
- Sharing through `Arc` and the `Sync` implementation are not modelled: all clients refer to the same `Queue` object.
- Only the 64-bit target is modelled. The 16- and 32-bit variants of `SENTINEL_MASK` and `round_up_to_power_of_two` are left out.
- Queues.Queue.Push: requires the write pointer to be below `2^63`. This is the wraparound limit documented at src/lib.rs:1-7; beyond it, epochs collide with the sentinel bit.
- Queues.Queue.constructor: requires `n > 0`, which the source asserts, and `n <= 2^63`. Above that the rounding overflows.
- RoundUp.RoundUpToPowerOfTwo: requires `1 <= n <= 2^63`. For 0, and above `2^63`, the source's arithmetic overflows.
- `T::default()` is passed to the constructors as the value `dflt`, since Dafny has no `Default` trait.
- Queues.QueueClient.CatchUp and `NextLoop`: the increments `to_read += 1` and `+ margin` wrap around at `2^64` (`WrapAdd`), as a release build does; a debug build (such as `cargo test`) panics on that overflow instead. `next` never reaches it: its margin stays below the size and the write pointer at or below `2^63`. Only a direct `catch_up` with a margin near `2^64` does. The subtraction `next_write_ptr() - size()` requires the write pointer to be at least the size, which holds from construction on.
- Queues.Queue.ReadLatest: its contract, like the source, holds for any cells with a readable position below the write pointer. Its termination on a valid queue (the first probe succeeds) comes from `Queue.NewestReadableIsLatest` and `Ring.ReadNewest`.
- `Scenarios`: the unit tests `single_threaded_single_client` and `single_threaded_multi_client` are covered one call at a time:
  - `NextCounting` for each `next` on the counting history;
  - `Ring.NextAhead` for each `next` that returns `None` at the write pointer;
  - `LaggingReader` for the lapped reader.
  They are not covered as whole chains of method calls.
- The benchmarks (`benches/`) and the `aos_sync` crate are not part of this model.
