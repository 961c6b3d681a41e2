# Asynchronous file copy and SPSC ring buffer — a Dafny model

This project models the core of a seminar repository on asynchronous I/O and lock-free
queues:

- **The pipelined asynchronous copy scheduler, in three variants.** In each one a fixed set of
  `QUEUE_SIZE` cells owns one block-sized slice of a buffer. A cell reads a block at an
  advancing source cursor. After the read completes it writes the same range from the same
  slice. After the write completes the cell either reads the next block or retires. The copy
  ends when nothing is in flight.
  - `io-uring-cp.c` tracks every cell's stage, offset and size over the exact file size. The
    last block is short, and a negative result aborts.
  - `linux-aio-cp.c` and `posix-aio-cp.c` first round the size up to whole blocks. They
    always read full blocks and dispatch on the control block's operation. A zero result
    retires a cell, and neither checks results for failure.
- **The thread-pool copy** (`thread-pool-cp.c`). Eight threads share one buffer. Thread `t`
  copies the blocks at `k·512·8 + t·512` with `pread`/`pwrite`.
- **The single-producer/single-consumer ring buffer** (`circular-buffer.c`), with sequential
  semantics only. Its capacity is a power of two, its head and tail counters wrap in 32 bits,
  and its fast variants keep a cached copy of the opposite index.

Every variant has two layers:

- **A value model** (`*_copy.dfy`, `circular_buffer.dfy`). It holds the source's state as a
  datatype and each step as a function, with lemmas about both.
  - Things the source leaves implicit are recorded beside its variables as history: the log
    of requests set up, the offsets whose write completion was reported (`written`; for the
    two AIO variants only completions with a non-zero result) and, in the two AIO variants,
    the offsets whose read or write completion was reported with 0 bytes (`lost`).
  - What the kernel or the library answers is an input: completions, events, polls and
    acceptances, and the results of `pread` and `pwrite`.
- **An imperative layer** (`*_impl.dfy`). It has a class with the source's arrays and
  counters, whose in-place methods are proved to compute the value model's step. It also has
  the main procedure's loops, proved to produce the outcome that the value model's `CopyFile`,
  `Pool` or `Init` describes.

Shared arithmetic lives in `Uint` (wrap-around to 16, 32 and 64 bits), `PowerOfTwo`
(bitwise AND with a low mask), `BlockMath` (rounding up to whole blocks) and `Counting`
(counts and sums over sequences).

## Model

| member | source | states |
|---|---|---|
| CircularBuffer.Slot | 03_circular_buffer/circular-buffer.c:96 | the slot `x & mask` is an index into the data array, and it equals `x mod size` when `mask == size - 1` |
| CircularBuffer.SizeTest | 03_circular_buffer/circular-buffer.c:61 | the test `size == 0 \|\| ((size - 1) & size) != 0` rejects exactly 0 and the sizes that are not powers of two |
| CircularBuffer.Init | 03_circular_buffer/circular-buffer.c:59-78 | init fails exactly on a rejected size; on success the data is zero-filled, head, tail and both caches are 0, the queue is empty, and the ring and cache invariants hold |
| CircularBuffer.InitAsWritten | 03_circular_buffer/circular-buffer.c:59-78 | as written, init fails exactly on 0 and the sizes that are not powers of two; otherwise the counters and caches are 0, there are `size` slots, and `mask` is whatever the caller's QUEUE held |
| CircularBuffer.EnqueueSimple | 03_circular_buffer/circular-buffer.c:124-139 | the producer writes neither `head` nor `cached_tail`; a success moves `tail` on by 1 modulo 2^32; a refusal leaves the queue exactly as it was |
| CircularBuffer.DequeueSimple | 03_circular_buffer/circular-buffer.c:141-155 | the consumer writes neither `tail`, `cached_head` nor the data; a success moves `head` on by 1 modulo 2^32; on an empty queue `*elem` and the queue are left as they were |
| CircularBuffer.Enqueue | 03_circular_buffer/circular-buffer.c:80-100 | the cached enqueue writes neither `head` nor `cached_tail`; a success moves `tail` on by 1 modulo 2^32; a refusal changes neither `tail` nor the data |
| CircularBuffer.Dequeue | 03_circular_buffer/circular-buffer.c:102-122 | the cached dequeue writes neither `tail`, `cached_head` nor the data; a success moves `head` on by 1 modulo 2^32; a failure leaves `head` and `*elem` as they were |
| CircularBuffer.FullTest | 03_circular_buffer/circular-buffer.c:84-90 | for a distance `tail - base` of at most `size + 1`, the signed test `(int32_t)(tail - (base + mask)) > 0` holds exactly when the distance is at least `size` |
| CircularBuffer.SlotsDiffer | 03_circular_buffer/circular-buffer.c:96 | two counters fewer than `size` apart map to different slots |
| CircularBuffer.RingAppend | 03_circular_buffer/circular-buffer.c:135-136 | writing at slot `tail & mask` appends that element to the ring's contents from head to tail |
| CircularBuffer.EnqueueSimpleCorrect | 03_circular_buffer/circular-buffer.c:124-139 | `queue_enqueue_simple` succeeds exactly when fewer than `size` elements are held; on failure nothing changes; on success only `data[tail & mask]` and `tail` (plus 1, wrapping) change, the element is appended to the contents, and the invariant is kept |
| CircularBuffer.DequeueSimpleCorrect | 03_circular_buffer/circular-buffer.c:141-155 | `queue_dequeue_simple` fails exactly when `tail == head`, and then changes nothing; on success it returns `data[head & mask]`, which is the oldest element, increments only head and drops that element from the contents |
| CircularBuffer.EnqueueAgreesWithSimple | 03_circular_buffer/circular-buffer.c:80-100 | `queue_enqueue` returns what the simple version returns and leaves the same head, tail and data; its cached head is refreshed only when the cache says full; both invariants hold afterwards |
| CircularBuffer.DequeueAgreesWithSimple | 03_circular_buffer/circular-buffer.c:102-122 | `queue_dequeue` returns the same success and element as the simple version and leaves the same head, tail and data; the cached tail is refreshed only when it says empty |
| CircularBuffer.PutStep | 03_circular_buffer/circular-buffer.c:80-139 | one enqueue, cached or simple, keeps the invariants and appends the element exactly when it succeeds |
| CircularBuffer.TakeStep | 03_circular_buffer/circular-buffer.c:102-155 | one dequeue, cached or simple, keeps the invariants and removes exactly the element it returns from the front |
| CircularBuffer.Run | 03_circular_buffer/circular-buffer.c:161-216 | a history enqueues and dequeues at most one value per call |
| CircularBuffer.RunFifo | 03_circular_buffer/circular-buffer.c:161-216 | over any history of calls made through one flavour of the operations, the old contents followed by everything enqueued equal everything dequeued followed by the new contents |
| CircularBuffer.FifoFromInit | 03_circular_buffer/circular-buffer.c:211-216 | from a freshly initialised queue and with one flavour of the operations, the k-th successful dequeue returns the k-th successfully enqueued value |
| CircularBuffer.RunCachedAgreesWithSimple | 03_circular_buffer/circular-buffer.c:80-155 | a history run with the cached operations enqueues and dequeues the same values as with the simple ones, and the states differ only in the caches |
| CircularBuffer.PutMixedFirst | 03_circular_buffer/circular-buffer.c:80-100 | with a cached head that may trail `head` (`head - cached_head ≤ tail - cached_head ≤ size + 1`), the first, cached enqueue still succeeds exactly when the simple one would, keeps the invariant, leaves the cache within `size` of tail when it fails, and appends the element when it succeeds |
| CircularBuffer.PutMixedStep | 03_circular_buffer/circular-buffer.c:161-184 | one producer attempt of the benchmark with `ENABLE_SIMPLE` (cached the first time, simple on a retry) keeps the invariant and the producer's cache bound, and appends the element exactly when it succeeds |
| CircularBuffer.TakeMixedStep | 03_circular_buffer/circular-buffer.c:186-209 | one simple dequeue keeps the invariant and the producer's cache bound, and removes exactly the element it returns from the front |
| CircularBuffer.RunMixed | 03_circular_buffer/circular-buffer.c:161-216 | a history of the benchmark's calls enqueues and dequeues at most one value per call |
| CircularBuffer.RunMixedFifo | 03_circular_buffer/circular-buffer.c:161-216 | over any history of the benchmark's calls with `ENABLE_SIMPLE`, the old contents followed by everything enqueued equal everything dequeued followed by the new contents |
| CircularBuffer.MixedFifoFromInit | 03_circular_buffer/circular-buffer.c:161-216 | from a freshly initialised queue, with the producer's first attempt cached, its retries simple and every dequeue simple, the k-th value the consumer receives is the k-th value enqueued, so the comparison at lines 211-215 never fails |
| CircularBuffer.MixedDequeuesBreak | 03_circular_buffer/circular-buffer.c:102-155 | mixing dequeue flavours breaks the queue: after a simple enqueue and a simple dequeue of the one element of a size-2 queue, the cached dequeue trusts its stale cached tail, reports success on the empty queue and leaves the ring invariant broken |
| CircularBuffer.UnsetMaskShrinksCapacity | 03_circular_buffer/circular-buffer.c:74-77 | with the mask left at 0, a queue of size 8 refuses its second element |
| CircularBufferImpl.Queue.Index | 03_circular_buffer/circular-buffer.c:96 | the slot is `x & mask` and lies inside the data array |
| CircularBufferImpl.Queue.EnqueueSimple | 03_circular_buffer/circular-buffer.c:124-139 | the in-place enqueue computes the value model's `EnqueueSimple` |
| CircularBufferImpl.Queue.DequeueSimple | 03_circular_buffer/circular-buffer.c:141-155 | the in-place dequeue computes the value model's `DequeueSimple` |
| CircularBufferImpl.Queue.Enqueue | 03_circular_buffer/circular-buffer.c:80-100 | the in-place cached enqueue computes the value model's `Enqueue` |
| CircularBufferImpl.Queue.Dequeue | 03_circular_buffer/circular-buffer.c:102-122 | the in-place cached dequeue computes the value model's `Dequeue` |
| CircularBufferImpl.NewQueue | 03_circular_buffer/circular-buffer.c:59-78 | returns no queue exactly for a rejected size, and otherwise a fresh queue in the state `Init` gives |
| IoUringCopy.InitCopyingStatus | 02_async_io/io-uring-cp.c:51-65 | every cell is idle with offset 0 and size 0, and `src_off` and the in-progress count are 0 |
| IoUringCopy.PrepareRead | 02_async_io/io-uring-cp.c:103-132 | when nothing is left this is a no-op with no request; otherwise only this cell becomes in-read, at offset `src_off` with size `min(left, 8192)`, `src_off` grows by that size up to at most `src_size`, the count grows by 1, and the one request reads 8192 bytes into the cell's slice |
| IoUringCopy.PrepareWrite | 02_async_io/io-uring-cp.c:134-151 | only this cell's stage changes, to in-write, keeping its offset and size; every other cell and every other field stay as they were; the one request writes 8192 bytes at the block's offset from the same slice |
| IoUringCopy.FinishWrite | 02_async_io/io-uring-cp.c:153-163 | only this cell's stage changes, to idle; every other cell stays as it was; the count drops by 1 modulo the counter's width, and nothing else changes |
| IoUringCopy.OnCompletion | 02_async_io/io-uring-cp.c:219-240 | a completion for an idle cell changes nothing; the copy aborts exactly when the cell is busy and the result is negative, and the abort names the failed operation and the block's offset and leaves the state as it was |
| IoUringCopy.Drain | 02_async_io/io-uring-cp.c:211-243 | a batch of completions with no negative result never aborts |
| IoUringCopy.Loop | 02_async_io/io-uring-cp.c:205-244 | a completed loop leaves nothing in progress, and rounds with no negative result never abort |
| IoUringCopy.Prime | 02_async_io/io-uring-cp.c:199-203 | priming n cells records nothing as written and only appends, at most n requests, to the request log |
| IoUringCopy.CopyFile | 02_async_io/io-uring-cp.c:193-244 | a completed copy leaves nothing in progress, and a copy whose completions are never negative never aborts |
| IoUringCopy.OfOpAppend | 02_async_io/io-uring-cp.c:121-123 | filtering the request log by operation distributes over appending one request |
| IoUringCopy.InitInv | 02_async_io/io-uring-cp.c:51-65 | the invariant holds after init: the count equals the number of busy cells, the reads tile the file from 0, every busy cell holds one of them, and every write copies one |
| IoUringCopy.BusyBound | 02_async_io/io-uring-cp.c:41 | at most `QUEUE_SIZE` cells are busy |
| IoUringCopy.IssueReadInv | 02_async_io/io-uring-cp.c:103-132 | a read on an idle cell keeps the invariant, does not move `src_off` back, and makes the cell busy exactly when data is left |
| IoUringCopy.PrepareWriteInv | 02_async_io/io-uring-cp.c:134-151 | turning a finished read into a write keeps the invariant |
| IoUringCopy.FinishWriteInv | 02_async_io/io-uring-cp.c:153-163 | retiring a finished write records its offset as written and keeps the invariant |
| IoUringCopy.OnCompletionInv | 02_async_io/io-uring-cp.c:219-240 | handling one completion keeps the invariant, and an abort names a block-aligned offset inside the file |
| IoUringCopy.DrainInv | 02_async_io/io-uring-cp.c:211-243 | draining a batch of completions keeps the same |
| IoUringCopy.PrimeInv | 02_async_io/io-uring-cp.c:199-203 | after priming n cells the invariant holds and the first cells are busy exactly while data was left |
| IoUringCopy.PrimedInv | 02_async_io/io-uring-cp.c:199-203 | after priming every cell, either all cells are busy or every block has been requested |
| IoUringCopy.LoopInv | 02_async_io/io-uring-cp.c:205-244 | the main loop keeps the invariant; when it ends, `src_off == src_size` and nothing is in progress |
| IoUringCopy.FinishedCopiesEverything | 02_async_io/io-uring-cp.c:205 | with the invariant and the loop's exit condition, every cell is idle, `ceil(size/8192)` reads were issued, and every block-aligned offset below the size was written |
| IoUringCopy.CopyFileCorrect | 02_async_io/io-uring-cp.c:193-244 | a completed copy issued `ceil(size/8192)` contiguous reads, and a write completion without error was reported for every block of the file; an abort happens at a block inside the file |
| IoUringCopy.MeasureZero | 02_async_io/io-uring-cp.c:205 | the measure `3·(blocks left to read) + 2·(cells in read) + (cells in write)` is positive exactly when the loop continues |
| IoUringCopy.CompletionProgress | 02_async_io/io-uring-cp.c:219-240 | a completion on an idle cell changes nothing; every other completion that does not abort lowers the measure and does not move `src_off` back |
| IoUringCopyImpl.CopyState.PrepareReadRequest | 02_async_io/io-uring-cp.c:103-132 | the in-place step computes `PrepareRead` |
| IoUringCopyImpl.CopyState.PrepareWriteRequest | 02_async_io/io-uring-cp.c:134-151 | the in-place step computes `PrepareWrite` |
| IoUringCopyImpl.CopyState.FinishWriteRequest | 02_async_io/io-uring-cp.c:153-163 | the in-place step computes `FinishWrite` |
| IoUringCopyImpl.HandleCompletion | 02_async_io/io-uring-cp.c:219-240 | one completion handled on the object yields the outcome `OnCompletion` gives, and unless it aborts the object is left in that outcome's state |
| IoUringCopyImpl.Copy | 02_async_io/io-uring-cp.c:192-244 | the priming loop and the completion loop produce the outcome `CopyFile` describes |
| BlockMath.RoundUp | 02_async_io/linux-aio-cp.c:110 | the rounded size is a multiple of the block, strictly above the size and at most a block above it, and a whole extra block when the size is already a multiple |
| BlockMath.RoundUp32Agrees | 02_async_io/linux-aio-cp.c:110 | the uint32_t rounding equals the unbounded one while no wrap-around happens |
| BlockMath.RoundUp32Wraps | 02_async_io/linux-aio-cp.c:110 | the uint32_t rounding gives 0 for every size within a block of 2^32 |
| BlockMath.RoundUp32 | 02_async_io/linux-aio-cp.c:110 | the uint32_t rounding is the unbounded sum `s + b - s mod b` when that fits in 32 bits, and that sum less 2^32 otherwise |
| BlockMath.CoverBelowSize | 02_async_io/linux-aio-cp.c:110 | if every block of the rounded size is written or lost and only the rounding's extra block can be lost, then every block-aligned offset below the size was written and only the size itself was lost |
| LinuxAioCopy.Promote | 02_async_io/linux-aio-cp.c:131 | `io_submit` puts every queued cell in flight and leaves the others alone |
| LinuxAioCopy.IoReadSetup | 02_async_io/linux-aio-cp.c:19-30 | a fresh read control block with the given descriptor, offset, buffer and size and priority 0 |
| LinuxAioCopy.IoWriteSetup | 02_async_io/linux-aio-cp.c:32-43 | a fresh write control block with the given descriptor, offset, buffer and size and priority 0 |
| LinuxAioCopy.PrimeFrom | 02_async_io/linux-aio-cp.c:113-124 | priming records nothing as written or lost, only appends to the log, at most one setup per remaining cell, moves `src_off` on by one block per setup, and stops before the last cell only at the end of the rounded file |
| LinuxAioCopy.HandleEvent | 02_async_io/linux-aio-cp.c:150-190 | an event for a control block not in flight changes nothing; a finished read with a non-zero result n becomes the queued write of `(size_t)n` bytes at the same offset from the same buffer, with `num_io_reqs` and `src_off` unchanged; a finished write with a non-zero result once `src_off >= src_size` retires the cell as written; a zero result frees the cell, lowers `num_io_reqs` by 1 and records the block as lost; `src_off` moves on by nothing or one block |
| LinuxAioCopy.DoRound | 02_async_io/linux-aio-cp.c:128-191 | a round aborts exactly when `io_submit` or `io_getevents` fails, with that failure |
| LinuxAioCopy.Loop | 02_async_io/linux-aio-cp.c:128-192 | a completed loop has `num_io_reqs == 0`, and rounds in which neither call fails never abort |
| LinuxAioCopy.CopyRounded | 02_async_io/linux-aio-cp.c:113-192 | the same for priming followed by the loop |
| LinuxAioCopy.CopyFileAsWritten | 02_async_io/linux-aio-cp.c:110-192 | for every size more than a block below 2^32 the copy as written is the copy with the corrected rounding |
| LinuxAioCopy.CopyFile | 02_async_io/linux-aio-cp.c:110-192 | a completed copy has `num_io_reqs == 0`, and a copy in which neither call fails never aborts |
| LinuxAioCopy.OfOpAppend | 02_async_io/linux-aio-cp.c:154-172 | filtering the setup log by opcode distributes over appending one setup |
| LinuxAioCopy.StartInv | 02_async_io/linux-aio-cp.c:113-114 | the invariant holds before priming, for a size in whole blocks |
| LinuxAioCopy.PrimeFromInv | 02_async_io/linux-aio-cp.c:113-124 | priming keeps the invariant and primes `min(QUEUE_SIZE, size/8192)` cells; cell c is queued with the read of 8192 bytes at `c·8192` into its own slice, and the other cells are free; `num_io_reqs` equals the number of reads, nothing is written or lost, and every cell is busy or the file is fully requested |
| LinuxAioCopy.ReadNextInv | 02_async_io/linux-aio-cp.c:175-184 | a full-block read at `src_off` into a free cell keeps the invariant |
| LinuxAioCopy.RetireInv | 02_async_io/linux-aio-cp.c:166-169 | retiring an in-flight cell keeps the invariant and lowers `num_io_reqs` by exactly 1 |
| LinuxAioCopy.LoseCovering | 02_async_io/linux-aio-cp.c:166-169 | retiring an in-flight cell over a zero result leaves the copy either with all cells busy or with a lost block before the last one |
| LinuxAioCopy.LastLost | 02_async_io/linux-aio-cp.c:128 | once the whole rounded file is requested, a lost block at or after the last one is the last one |
| LinuxAioCopy.ReadToWriteInv | 02_async_io/linux-aio-cp.c:154-165 | re-arming a finished read as a write of n bytes at the same offset from the same slice keeps the invariant |
| LinuxAioCopy.WriteThenReadIsRetireThenRead | 02_async_io/linux-aio-cp.c:172-185 | re-arming a finished write as the next read is retiring the cell as written and then reading at `src_off` into its slice |
| LinuxAioCopy.HandleEventInv | 02_async_io/linux-aio-cp.c:148-191 | one event keeps the invariant, never raises `num_io_reqs`, adds at most one entry to the submit list and does not move `src_off` back; a non-zero result loses no block; it keeps the fact that all cells are busy or some block before the last was lost |
| LinuxAioCopy.HandleEventsInv | 02_async_io/linux-aio-cp.c:147-191 | a batch of n events keeps the same, and the submit list grows by at most n |
| LinuxAioCopy.PromoteCounts | 02_async_io/linux-aio-cp.c:131 | after submission nothing is queued and every formerly queued cell is in flight |
| LinuxAioCopy.SubmitInv | 02_async_io/linux-aio-cp.c:131-147 | submitting and clearing the list keeps the invariant and `num_io_reqs` |
| LinuxAioCopy.DoRoundInv | 02_async_io/linux-aio-cp.c:128-191 | one round keeps the invariant; afterwards the submit list holds at most `num_events ≤ QUEUE_SIZE` entries, so it never overflows |
| LinuxAioCopy.LoopInv | 02_async_io/linux-aio-cp.c:128-192 | the loop keeps the invariant and ends with `num_io_reqs == 0` |
| LinuxAioCopy.Finished | 02_async_io/linux-aio-cp.c:128 | when `num_io_reqs == 0` every cell is free and every block read was either reported written or reported with 0 bytes |
| LinuxAioCopy.LoopCorrect | 02_async_io/linux-aio-cp.c:128-192 | a completed loop left every cell free; its k-th read was a full block at `k·8192`; every block read was reported written or with 0 bytes; with no zero results nothing was lost; and if only the last block came back with 0 bytes, the reads cover the rounded size, every block is written or lost, and only the last block can be lost |
| LinuxAioCopy.CopyRoundedCorrect | 02_async_io/linux-aio-cp.c:113-192 | the same for priming followed by the loop, for any rounded size |
| LinuxAioCopy.CopyFileCorrect | 02_async_io/linux-aio-cp.c:110-192 | with the corrected rounding, a completed copy left every cell free and lost nothing if no result was 0; and if every block reported with 0 bytes lies at or beyond the size (the end-of-file read of the rounding's extra block), a write completion was reported for every block-aligned offset below the size, and only `src_size` itself was lost |
| LinuxAioCopy.AsWrittenCopiesNothing | 02_async_io/linux-aio-cp.c:110 | as written, a size within 8192 of 2^32 rounds to 0, and the copy completes at once having copied nothing |
| LinuxAioCopy.EventProgress | 02_async_io/linux-aio-cp.c:148-191 | an event for a cell not in flight changes nothing; any other event lowers the measure `3·(blocks left to read) + 2·(reads outstanding) + (writes outstanding)` |
| LinuxAioCopy.EventMeasure | 02_async_io/linux-aio-cp.c:151-190 | an event for an in-flight control block lowers the measure |
| LinuxAioCopy.SubmitKeepsMeasure | 02_async_io/linux-aio-cp.c:131 | submission changes neither the counters nor the measure |
| LinuxAioCopyImpl.AioCopy.Register | 02_async_io/linux-aio-cp.c:163-164 | rewriting a control block and appending it to the submit list is the value model's `Enqueue`, and `num_to_submit` grows by 1 |
| LinuxAioCopyImpl.AioCopy.PrimeRead | 02_async_io/linux-aio-cp.c:117-123 | one priming iteration computes `PrimeCell` |
| LinuxAioCopyImpl.AioCopy.OnEvent | 02_async_io/linux-aio-cp.c:151-190 | one event handled in place computes `HandleEvent` |
| LinuxAioCopyImpl.AioCopy.OnReadEvent | 02_async_io/linux-aio-cp.c:154-171 | a finished read handled in place, queuing its write or giving the block up, computes `HandleEvent` |
| LinuxAioCopyImpl.AioCopy.OnWriteEvent | 02_async_io/linux-aio-cp.c:172-190 | a finished write handled in place, queuing the next read or retiring the control block, computes `HandleEvent` |
| LinuxAioCopyImpl.AioCopy.Prime | 02_async_io/linux-aio-cp.c:113-124 | the priming loop computes `PrimeFrom` |
| LinuxAioCopyImpl.AioCopy.OnEvents | 02_async_io/linux-aio-cp.c:147-191 | the event loop computes `HandleEvents` |
| LinuxAioCopyImpl.Copy | 02_async_io/linux-aio-cp.c:110-192 | rounding, priming and the submit/wait/handle loop produce the outcome `CopyFile` describes |
| PosixAioCopy.Issue | 02_async_io/posix-aio-cp.c:19-53 | a setup changes only one control block, and the request continues exactly when the library accepts it; a rejection aborts with `RequestRejected` |
| PosixAioCopy.AioReadSetup | 02_async_io/posix-aio-cp.c:19-35 | a read control block with the given descriptor, offset, buffer and size |
| PosixAioCopy.AioWriteSetup | 02_async_io/posix-aio-cp.c:37-53 | a write control block with the given descriptor, offset, buffer and size |
| PosixAioCopy.PrimeFrom | 02_async_io/posix-aio-cp.c:113-125 | priming records nothing as written or lost, aborts only with `RequestRejected`, and never aborts when every read is accepted |
| PosixAioCopy.PrimeFromAdvances | 02_async_io/posix-aio-cp.c:113-125 | priming only appends to the log, at most one request per remaining cell; while it runs, `src_off` moves on by one block per request, and it stops before the last cell only at the end of the rounded file |
| PosixAioCopy.ScanCell | 02_async_io/posix-aio-cp.c:139-182 | a NULL or still-running entry changes nothing; an answer that leads to no rejected request never aborts; a finished read with a non-zero result n becomes the write of `(size_t)n` bytes at the same `aio_offset` from the cell's slice, the entry stays listed, `num_io_reqs` and `src_off` are unchanged, and the copy goes on exactly when the library accepts it; a finished write with a non-zero result once `src_off >= src_size` clears the entry as written; a zero result clears the entry, lowers `num_io_reqs` by 1 and records the block as lost; `src_off` moves on by nothing or one block |
| PosixAioCopy.ScanFrom | 02_async_io/posix-aio-cp.c:137-183 | a scan in which the library accepts every request never aborts |
| PosixAioCopy.DoRound | 02_async_io/posix-aio-cp.c:128-184 | a failed `aio_suspend` aborts with `SuspendError`, any other abort is `RequestRejected`, and a scan whose requests are all accepted never aborts |
| PosixAioCopy.Loop | 02_async_io/posix-aio-cp.c:128-184 | a completed loop has `num_io_reqs == 0`, and rounds with no failure and no rejection never abort |
| PosixAioCopy.CopyRounded | 02_async_io/posix-aio-cp.c:113-184 | the same for priming followed by the loop, when every priming read is accepted |
| PosixAioCopy.CopyFileAsWritten | 02_async_io/posix-aio-cp.c:111-184 | for every size more than a block below 2^32 the copy as written is the copy with the corrected rounding |
| PosixAioCopy.CopyFile | 02_async_io/posix-aio-cp.c:111-184 | a completed copy has `num_io_reqs == 0`, and a copy with no failure and no rejection never aborts |
| PosixAioCopy.OfKindAppend | 02_async_io/posix-aio-cp.c:146-164 | filtering the setup log by kind distributes over appending one setup |
| PosixAioCopy.StartInv | 02_async_io/posix-aio-cp.c:100-115 | the invariant holds before priming, with an empty wait list |
| PosixAioCopy.PrimeFromInv | 02_async_io/posix-aio-cp.c:113-125 | priming continues exactly when every priming read is accepted; then the first `min(16, size/512)` wait-list entries are set and only they, each holding a 512-byte read at `i·512` into slice i, and `num_io_reqs` equals their number |
| PosixAioCopy.ReadNextInv | 02_async_io/posix-aio-cp.c:167-173 | a full-block read at `src_off` on an unlisted cell keeps the invariant |
| PosixAioCopy.RetireInv | 02_async_io/posix-aio-cp.c:155-161 | clearing a listed cell keeps the invariant and lowers `num_io_reqs` by exactly 1 |
| PosixAioCopy.LoseCovering | 02_async_io/posix-aio-cp.c:155-161 | clearing a listed cell over a zero result leaves the copy either with every cell listed or with a lost block before the last one |
| PosixAioCopy.LastLost | 02_async_io/posix-aio-cp.c:128 | once the whole rounded file is requested, a lost block at or after the last one is the last one |
| PosixAioCopy.ReadToWriteInv | 02_async_io/posix-aio-cp.c:146-154 | re-arming a finished read as an accepted write of n bytes at the same `aio_offset` from the same slice keeps the invariant |
| PosixAioCopy.WriteThenReadIsRetireThenRead | 02_async_io/posix-aio-cp.c:164-174 | re-arming a finished write as the next read is retiring it as written and then reading at `src_off` into the same slice |
| PosixAioCopy.ScanCellInv | 02_async_io/posix-aio-cp.c:137-183 | a NULL or still-running entry is skipped and nothing changes; any other step keeps the invariant, never re-lists a cleared entry, never raises `num_io_reqs` and does not move `src_off` back; it keeps the fact that all cells are listed or some block before the last was lost |
| PosixAioCopy.ScanFromInv | 02_async_io/posix-aio-cp.c:137-183 | the whole scan of the wait list keeps the same |
| PosixAioCopy.LoopInv | 02_async_io/posix-aio-cp.c:128-184 | the suspend/scan loop keeps the invariant, never re-lists a cleared entry, and ends with `num_io_reqs == 0` |
| PosixAioCopy.Finished | 02_async_io/posix-aio-cp.c:128 | when `num_io_reqs == 0` the wait list is all NULL and every block read was either reported written or reported with 0 bytes |
| PosixAioCopy.LoopCorrect | 02_async_io/posix-aio-cp.c:128-184 | a completed loop left the wait list empty; its k-th read was a full block at `k·512`; every block read was reported written or with 0 bytes; with no zero results nothing was lost; and if only the last block came back with 0 bytes, the reads cover the rounded size, every block is written or lost, and only the last block can be lost |
| PosixAioCopy.CopyFileCorrect | 02_async_io/posix-aio-cp.c:111-184 | a rejected priming read aborts the copy; with the corrected rounding, a completed copy left the wait list empty and lost nothing if no result was 0; and if every block reported with 0 bytes lies at or beyond the size, a write completion was reported for every block-aligned offset below the size, and only `src_size` itself was lost |
| PosixAioCopy.AsWrittenCopiesNothing | 02_async_io/posix-aio-cp.c:111 | as written, a size within 512 of 2^32 rounds to 0, and the copy completes at once having copied nothing |
| PosixAioCopy.ScanCellProgress | 02_async_io/posix-aio-cp.c:146-182 | every finished request that does not abort lowers the measure `3·(blocks left to read) + 2·(reads listed) + (writes listed)` |
| PosixAioCopyImpl.PosixCopy.ReadRequest | 02_async_io/posix-aio-cp.c:19-35 | `aio_read_setup` in place computes `Issue` of a read and reports whether it was accepted |
| PosixAioCopyImpl.PosixCopy.WriteRequest | 02_async_io/posix-aio-cp.c:37-53 | `aio_write_setup` in place computes `Issue` of a write and reports whether it was accepted |
| PosixAioCopyImpl.PosixCopy.Prime | 02_async_io/posix-aio-cp.c:113-125 | the priming loop computes `PrimeFrom` |
| PosixAioCopyImpl.PosixCopy.PrimeCell | 02_async_io/posix-aio-cp.c:116-124 | one priming iteration succeeds exactly when `aio_read` accepts; then the state is `ReadNext`'s, and otherwise it is the aborted trace `Issue` gives |
| PosixAioCopyImpl.PosixCopy.VisitCell | 02_async_io/posix-aio-cp.c:139-182 | one scan iteration in place computes `ScanCell` |
| PosixAioCopyImpl.PosixCopy.ScanWaitList | 02_async_io/posix-aio-cp.c:137-183 | the scan loop computes `ScanFrom` |
| PosixAioCopyImpl.RunLoop | 02_async_io/posix-aio-cp.c:128-184 | the suspend/scan loop computes `Loop` |
| PosixAioCopyImpl.Copy | 02_async_io/posix-aio-cp.c:111-184 | rounding, priming and the loop produce the outcome `CopyFile` describes |
| ThreadPoolCopy.Args | 02_async_io/thread-pool-cp.c:114-122 | thread t gets its own index, the source size and the slice at `t·512` |
| ThreadPoolCopy.Offset | 02_async_io/thread-pool-cp.c:47 | the offset of thread t's k-th iteration is block-aligned; divided by `512·8` it gives k back, with remainder `t·512` |
| ThreadPoolCopy.Run | 02_async_io/thread-pool-cp.c:45-72 | a thread copies at most one block per pair of `pread`/`pwrite` results, and one that runs out of inputs has used every pair |
| ThreadPoolCopy.RunCopies | 02_async_io/thread-pool-cp.c:53-65 | the j-th block a thread copied has the length its j-th `pread` and `pwrite` both returned |
| ThreadPoolCopy.ThreadRunAsWritten | 02_async_io/thread-pool-cp.c:37-75 | the same bound for `thread_func` with the uint32_t cursor |
| ThreadPoolCopy.ThreadRun | 02_async_io/thread-pool-cp.c:37-75 | the same bound for `thread_func` with a cursor that does not wrap |
| ThreadPoolCopy.Pool | 02_async_io/thread-pool-cp.c:114-176 | with the corrected, non-wrapping cursor: one outcome per thread; the first block thread t copies is at file offset `t·512`, and each copies at most one block per pair of results |
| ThreadPoolCopy.OffsetStep | 02_async_io/thread-pool-cp.c:67 | one thread's offsets grow by `512·8` from one iteration to the next |
| ThreadPoolCopy.OffsetsDisjoint | 02_async_io/thread-pool-cp.c:47 | two (thread, iteration) pairs share an offset exactly when they are the same pair |
| ThreadPoolCopy.OffsetCovers | 02_async_io/thread-pool-cp.c:45-47 | every block-aligned offset is iteration `(o/512)/8` of thread `(o/512) mod 8` |
| ThreadPoolCopy.SlicesDisjoint | 02_async_io/thread-pool-cp.c:102-118 | the slices `[t·512, (t+1)·512)` of different threads are disjoint and lie in the `512·8`-byte buffer |
| ThreadPoolCopy.RunSchedule | 02_async_io/thread-pool-cp.c:45-71 | from iteration k0 on, the j-th block copied is iteration `k0 + j`, at or below the size, with its write as long as its read; only the last read may be short |
| ThreadPoolCopy.RunReaches | 02_async_io/thread-pool-cp.c:45-71 | a thread that leaves its loop normally reaches every in-bounds iteration unless an earlier read was short |
| ThreadPoolCopy.ThreadSchedule | 02_async_io/thread-pool-cp.c:37-75 | thread t's k-th copied block is at `k·512·8 + t·512`, never past the size (the test is `>`, so the size itself is still tried), written with the length read; it stops after its first short read |
| ThreadPoolCopy.ThreadCopiesOnce | 02_async_io/thread-pool-cp.c:47-67 | one thread's copied offsets strictly increase |
| ThreadPoolCopy.PoolCoverage | 02_async_io/thread-pool-cp.c:45-71 | with the corrected, non-wrapping cursor, every block-aligned offset below the size is copied by its owning thread, provided that thread left its loop normally with no earlier short read, and by no other thread |
| ThreadPoolCopy.RunAgrees | 02_async_io/thread-pool-cp.c:45 | while `size + 4096 ≤ 2^32` the uint32_t cursor never wraps and the as-written loop equals the corrected one |
| ThreadPoolCopy.AsWrittenWrapsToStart | 02_async_io/thread-pool-cp.c:45-67 | as written, for a size of `2^32 - 1`, thread 0 copies its last block, then wraps its cursor to 0 and copies block 0 again |
| ThreadPoolCopy.CorrectedStopsAtEnd | 02_async_io/thread-pool-cp.c:45-67 | with a cursor that does not wrap, the same thread stops after its last block |
| ThreadPoolCopyImpl.ThreadFunc | 02_async_io/thread-pool-cp.c:37-75 | the loop over the cursor computes `ThreadRun` |
| ThreadPoolCopyImpl.InitArgs | 02_async_io/thread-pool-cp.c:114-122 | the argument array holds `Args(t)` for every thread |
| ThreadPoolCopyImpl.Copy | 02_async_io/thread-pool-cp.c:114-176 | building the arguments and running every thread gives the outcomes `Pool` describes |

## Left out

- I/O itself is not modelled: opening, sizing, allocating, truncating and closing files, and buffer contents. What `pread`, `pwrite`, the kernel and the AIO library return is an input. The copies model which offsets are requested, written or lost, not the bytes.
- The io_uring ring set-up, fixed-buffer registration and the peek/`cqe_seen` mechanics are not modelled. Each round's completions arrive as one input batch.
- `io_submit` partially accepting a batch and `io_getevents` returning fewer events than completed are not modelled. A failed `io_submit` or `io_getevents` and a failed `aio_suspend` are modelled only as an abort.
- LinuxAioCopy.HandleEvent: an event whose control block is not in flight is ignored. The kernel never reports those, and the source would re-dispatch on whatever that control block holds.
- PosixAioCopy: the model stores the request kind explicitly. The source dispatches on `aio_lio_opcode`, which its setup helpers zero and the library sets.
- PosixAioCopy: `aio_error` values other than `EINPROGRESS` are not distinguished from success, as in the source. `aio_return` is the poll's `ret`.
- After a rounded copy the source passes the rounded size to `close_src_dst_files`, and truncation happens there. That is I/O and is not modelled.
- The source's sizes come from `common.h` as `uint32_t`, so files of 4 GiB or more are already truncated there. `common.h` is not part of this model, and sizes are taken as `u32`.
- Uninitialised control blocks are not modelled; they are modelled as zeroed.
- Thread creation, affinity, joining and the lock benchmarks are not modelled. The thread pool's threads touch disjoint slices (`SlicesDisjoint`), so `ThreadPoolCopyImpl.Copy` runs them one after another.
- CircularBuffer: only sequential semantics are modelled. Atomic memory orders, cache-line padding and the two benchmark threads' interleaving are left out; a history is one sequence of calls.
- CircularBuffer.FifoFromInit: covers a history of one flavour of the operations. The benchmark's `ENABLE_SIMPLE` mix (a cached first enqueue, simple retries, simple dequeues) is `MixedFifoFromInit`. Histories that mix `queue_dequeue` with `queue_dequeue_simple` are not covered: a simple dequeue leaves `cached_tail` stale, and the cached dequeue then reports an element on an empty queue (`MixedDequeuesBreak`).
- CircularBuffer.RunFifo: the same restriction to one flavour; `RunMixedFifo` covers the benchmark's mix.
- CircularBufferImpl.NewQueue: it assigns `mask := size - 1`, the corrected `queue_init`. The as-written `queue_init` is `InitAsWritten` only (see Findings).
- CircularBufferImpl.Queue.constructor: the same; it sets `mask` to `size - 1`.
- LinuxAioCopyImpl.Copy: it rounds without wrap-around to compute `CopyFile`. The uint32_t rounding is modelled by `CopyFileAsWritten` only (see Findings).
- PosixAioCopyImpl.Copy: the same; the uint32_t rounding is `CopyFileAsWritten` only.
- ThreadPoolCopyImpl.ThreadFunc: it runs the corrected, non-wrapping cursor. The uint32_t cursor is modelled by `ThreadRunAsWritten` only (see Findings).
- LinuxAioCopy.CopyFileCorrect: what the kernel returns is an input, so a read inside the file may return 0 bytes (as it would for a file that shrinks during the copy). Full coverage below the size is concluded only when every block reported with 0 bytes lies at or past `src_size`; without that premise the lemma still states that every block read was reported written or with 0 bytes.
- PosixAioCopy.CopyFileCorrect: the same premise on the blocks reported with 0 bytes.
- LinuxAioCopy: an event's `res` is an unbounded integer. The source first truncates the kernel's 64-bit `res` to `int io_ret`; that truncation is not modelled, since a result is at most a block or a negative error code.
- `exit` on failure is modelled as an `Aborted` or `Failed` outcome carrying the failing request; the message text is left out.

## Findings

| source | as written | input that shows it | evidently intended | confidence | as-written member | corrected member |
|---|---|---|---|---|---|---|
| 02_async_io/linux-aio-cp.c:110 | `src_size + READ_BLOCK_SIZE - src_size % READ_BLOCK_SIZE` is computed in `uint32_t` and wraps to 0 | `src_size = 2^32 - 8192` (any size within 8192 of 2^32) | round up to whole blocks without wrap-around, so every block is copied | not executed | LinuxAioCopy.AsWrittenCopiesNothing | LinuxAioCopy.CopyFileCorrect |
| 02_async_io/posix-aio-cp.c:111 | the same rounding in `uint32_t` wraps to 0 | `src_size = 2^32 - 512` | the same | not executed | PosixAioCopy.AsWrittenCopiesNothing | PosixAioCopy.CopyFileCorrect |
| 03_circular_buffer/circular-buffer.c:59-78 | `queue_init` never assigns `mask`, yet every slot and full test uses it as `size - 1` | `size = 8` with `mask` left at 0: the second enqueue fails | `mask = size - 1` | not executed | CircularBuffer.UnsetMaskShrinksCapacity | CircularBuffer.Init |
| 02_async_io/thread-pool-cp.c:45-67 | the cursor `i` is `uint32_t`, so `i += 4096` wraps to a small value while `i < src_size` still holds | `src_size = 2^32 - 1` with full reads: thread 0 copies block `2^32 - 4096`, then block 0 again | count in `size_t` (as `offset` is) so the loop ends after the last block | not executed | ThreadPoolCopy.AsWrittenWrapsToStart | ThreadPoolCopy.CorrectedStopsAtEnd |
