# Bounded single-producer/single-consumer ring buffer

This project models `RingBuffer`, the lock-free bounded queue of `i32`
values in `src/main.rs`. The buffer holds a fixed vector of `capacity` slots
and two cursors. The producer owns `write_idx_` and the consumer owns
`read_idx_`. Each side also keeps a private, possibly stale copy of the other
side's cursor: `read_idx_cached_` for the producer, `write_idx_cached_` for
the consumer. A side re-reads the real cursor only when its copy says the
buffer is full (producer) or empty (consumer). One slot is always left free,
so `capacity - 1` values fit.

The project has three modules.

- `Ring` (`ring_spec.dfy`) is the value-level specification.
  - `Next` is the source's increment-and-wrap of a cursor.
  - `Dist(a, b, n)` is the number of forward steps from cursor `a` to cursor
    `b`, that is `(b - a + n) mod n` (`DistIsModular`).
  - `Window` gives the queued values: the slots from the read cursor up to the
    write cursor, wrapping at the end of the storage.
  - `RingState` is a snapshot of the five fields. `Push` and `Pop` are the two
    operations as functions, following the source branch by branch.
  - `RingState.Valid` is the invariant of reachable states. Every cursor
    indexes a slot. The real read cursor lies on the forward path from the
    producer's cached copy to the write cursor. The consumer's cached write
    cursor lies on the forward path from the read cursor to the real write
    cursor. In both cases the stale copy can only make its owner more
    pessimistic than the truth.
- `RingTrace` (`ring_trace.dfy`) covers whole runs: any sequence of pushes
  and pops, applied one after another. It proves four things about them:
  - runs keep FIFO order;
  - the buffer refines a reference bounded queue of `capacity - 1` values;
  - a drained buffer behaves exactly like a new one, wherever its cursors
    stand;
  - the usable capacity is `capacity - 1`.
- `Queue` (`ring_buffer.dfy`) holds the class `RingBuffer`. It has an
  `array<i32>` and four `nat` cursor fields, updated in place. `Push` and
  `Pop` follow the source statement by statement. Each is proved to produce
  the state that `Ring.Push` / `Ring.Pop` give. Each also keeps a ghost
  `contents` sequence: push appends to it and pop removes its head.

The atomics are modelled as plain fields and each call as one atomic step.
`push` and `pop` take `&mut self` (`src/main.rs:10-11`), so two calls on the
same buffer cannot overlap, and the only driver in the repository serialises
every call through a `Mutex` (`src/main.rs:94`, `:102`, `:119`). So this
sequential model is exact for how the code can be called.

Capacity 1 gives a buffer that is always both full and empty
(`Ring.CapacityOneRejectsAll`). Capacity 0 is excluded: its first `push`
computes a next cursor of 1, passes the full check against the cached read
cursor 0, and indexes `data_[0]` of an empty vector, which panics
(`src/main.rs:35-49`). So construction requires `capacity >= 1`.

## Model

| member | source | states |
|---|---|---|
| `Ring.New` | src/main.rs:23-31 | A new buffer has `capacity` slots, all 0. It is valid and holds no values. |
| `Ring.Next` | src/main.rs:35-39 | Advancing a cursor that indexes a slot gives a cursor that indexes a slot, so cursors stay in `[0, capacity)`. |
| `Ring.NextIsModular` | src/main.rs:64-68 | The increment-and-wrap equals `(i + 1) mod capacity`, so wrapping around causes no drift. |
| `Ring.Push` | src/main.rs:33-53 | Follows the source's branches: advance the write cursor with wrap; if it meets the cached read cursor, refresh the cache from the real read cursor and fail if it still meets it; otherwise store the value and publish the cursor. Its contract states that the producer never writes the read cursor or the consumer's cache, that the cache only ever takes the real read cursor, and that a failed push leaves storage and write cursor alone; `Ring.PushCorrect` states the rest. |
| `Ring.Pop` | src/main.rs:55-71 | Follows the source's branches: if the read cursor meets the cached write cursor, refresh the cache from the real write cursor and fail if it still meets it; otherwise hand out the slot at the read cursor and publish the advanced cursor. Its contract states that the consumer never writes the storage, the write cursor or the producer's cache, that the cache only ever takes the real write cursor, and that a failed pop returns the caller's value and leaves the read cursor alone; `Ring.PopCorrect` states the rest. |
| `Ring.FullIff` | src/main.rs:41-46 | Advancing the write cursor meets the read cursor exactly when `capacity - 1` values are queued. |
| `Ring.ProducerCacheSafe` | src/main.rs:41-47 | In a valid state, a push that passes the check against a stale cached read cursor finds the real buffer not full. So it never overwrites an unread slot. |
| `Ring.ConsumerCacheSafe` | src/main.rs:57-62 | In a valid state, a pop that passes the check against a stale cached write cursor finds the real buffer non-empty. The slot it reads holds the oldest queued value. |
| `Ring.WindowPush` | src/main.rs:49-52 | Storing at the write cursor and advancing it appends exactly that value to the queued values. This holds whenever the advanced cursor does not meet the read cursor. |
| `Ring.WindowPop` | src/main.rs:63-68 | On a non-empty buffer, the queued values are the slot at the read cursor followed by the values queued after advancing the read cursor. |
| `Ring.PushCorrect` | src/main.rs:33-53 | Push succeeds iff fewer than `capacity - 1` values are queued. On success the storage becomes the old storage with `v` at the old write cursor, the write cursor advances, and the queue becomes `old + [v]`. On failure the state is unchanged: in a full buffer the cached read cursor already equals the real one, so the refresh changes nothing. The read cursor and the consumer's cache never change, and validity is kept. |
| `Ring.PopCorrect` | src/main.rs:55-71 | Pop succeeds iff the queue is non-empty. On success it returns the oldest value, the read cursor advances, and the queue loses its head. On failure it returns the caller's value and the state is unchanged: in an empty buffer the cached write cursor already equals the real one. The storage, the write cursor and the producer's cache never change, and validity is kept. |
| `Ring.CapacityOneRejectsAll` | src/main.rs:33-61 | With one slot the buffer is at once full and empty: every push and every pop fails. |
| `RingTrace.Apply` | src/main.rs:33-71 | One call, either push or pop, keeps the state valid and the capacity unchanged. It succeeds exactly when it moves a value in or out. |
| `RingTrace.ApplyIsFifo` | src/main.rs:33-71 | For one call, the queue before it plus any value pushed equals any value popped plus the queue after it. At most one value moves. |
| `RingTrace.Run` | src/main.rs:33-71 | Any sequence of calls keeps the state valid and returns one boolean per call. |
| `RingTrace.RunIsFifo` | src/main.rs:107-110 | Over any run, the initial queue followed by all successfully pushed values equals all popped values followed by the final queue. |
| `RingTrace.FreshRunIsFifo` | src/main.rs:99-123 | Starting from a new buffer, the pops return a prefix of the pushed values, in push order. The rest is still queued, and that is never more than `capacity - 1` values. |
| `RingTrace.RunRefinesQueue` | src/main.rs:33-71 | Every run returns the same booleans, moves the same values in and out, and leaves the same values queued as a reference FIFO queue that holds at most `capacity - 1` values. |
| `RingTrace.DrainedBehavesAsNew` | src/main.rs:23-31 | A drained buffer answers every sequence of calls exactly as a newly constructed buffer of the same capacity does, whatever its cursors and caches. |
| `RingTrace.PushesFillToCapacity` | src/main.rs:41-46 | Without pops, the i-th push succeeds exactly when the number of values queued at the start plus i is less than `capacity - 1`. |
| `RingTrace.CapacityFourScenario` | src/main.rs:33-71 | With capacity 4, starting new or drained, the calls push 1, 2, 3, 4, pop, push 4, then pop four times. They return true, true, true, false, true, true, true, true, true, false, and the pops yield 1, 2, 3, 4. |
| `Queue.RingBuffer.constructor` | src/main.rs:23-31 | The object's fields equal `Ring.New(capacity)`: zeroed fresh storage and all cursors 0. The object holds no values. |
| `Queue.RingBuffer.Push` | src/main.rs:33-53 | The new fields and result are those of `Ring.Push`. The result is true iff fewer than `capacity - 1` values were queued. The contents become `old + [val]` on success; on failure no field changes. The frame allows only the storage, the write cursor and the cached read cursor to change. |
| `Queue.RingBuffer.Pop` | src/main.rs:55-71 | The new fields and results are those of `Ring.Pop`. The result is true iff the contents were non-empty. On success `val` is the oldest value and the contents lose it. On failure `val` is the caller's `prior` value and no field changes. The frame allows only the read cursor and the cached write cursor to change; the storage is never written. |

## Left out

- Memory orderings (`Relaxed`, `Acquire`, `Release`) and cross-thread visibility (`src/main.rs:34`, `:42`, `:50`, `:56`, `:58`, `:69`). The atomics are plain fields, and each call is one indivisible step.
- The `Aligned<A64, …>` cache-line padding of the two cursors: it affects layout and speed only.
- `pin_thread`, `bench` and `main`: CPU affinity via libc, threads, `Arc<Mutex<_>>`, timing, floating-point throughput, printing and process exit. `bench`'s racy drain check is left out with it. Its ordered-values check is what `RingTrace.RunIsFifo` and `RingTrace.FreshRunIsFifo` state.
- Queue.RingBuffer.constructor: requires `capacity >= 1`, which the source does not check. With capacity 0 the first `push` indexes an empty vector and panics; the panic is not modelled. The same exclusion covers `RingBuffer::default()` from `#[derive(Default)]` (`src/main.rs:14`), which builds an empty vector with all cursors at 0 and is not modelled as a second constructor.
- Ring.New: requires `capacity >= 1` for the same reason.
- `usize` width: cursors are unbounded `nat`s. The source's `idx + 1` cannot overflow, because a cursor is always below the vector's length.
- RingTrace.Run: every pop in a run starts with the caller's value set to 0, as `bench`'s consumer does (`src/main.rs:100`). The value a failed pop hands back to a caller is stated per call by `Ring.PopCorrect` and `Queue.RingBuffer.Pop`.
