/** The single-producer/single-consumer ring buffer (QUEUE) with its "simple" and
    "cached" enqueue/dequeue operations, sequential semantics only.  All 32-bit
    counters wrap modulo 2^32; a slot index is `counter & mask`. */
module CircularBuffer {
  import opened Uint
  import opened PowerOfTwo
  import opened Wrappers

  /** The fields of QUEUE, with `data` standing for the contents of the element array. */
  datatype QueueState = QueueState(
    data: seq<u64>, mask: u32, cachedHead: u32, cachedTail: u32, head: u32, tail: u32)

  /** The intended layout: a power-of-two element array and `mask == size - 1`. */
  predicate Layout(data: seq<u64>, mask: u32)
  {
    IsPow2(|data|) && |data| < U32 && mask == |data| - 1
  }

  predicate Wf(q: QueueState)
  {
    Layout(q.data, q.mask)
  }

  /** Occupancy `tail - head` in uint32_t arithmetic. */
  function Occupancy(q: QueueState): u32
  {
    Sub32(q.tail, q.head)
  }

  /** The queue holds at most `size` elements. */
  predicate Inv(q: QueueState)
  {
    Wf(q) && Occupancy(q) <= |q.data|
  }

  /** The producer's cached head lags the real head, and the consumer's cached tail
      lies between the real head and tail, all measured along the wrapping window. */
  predicate CacheInv(q: QueueState)
  {
    && Sub32(q.head, q.cachedHead) <= Sub32(q.tail, q.cachedHead) <= |q.data|
    && Sub32(q.cachedTail, q.head) <= Occupancy(q)
  }

  lemma {:induction false} BitAndBelow(x: nat, y: nat)
    ensures BitAnd(x, y) <= y
  {
    if x != 0 && y != 0 { BitAndBelow(x / 2, y / 2); }
  }

  /** The array index `x & mask`: in bounds whenever the mask is, and `x mod size`
      under the intended layout. */
  function Slot(data: seq<u64>, mask: u32, x: u32): (i: nat)
    requires mask < |data|
    ensures i < |data|
    ensures Layout(data, mask) ==> i == x % |data|
  {
    BitAndBelow(x, mask);
    if Layout(data, mask) then AndLowMask(x, |data|); BitAnd(x, mask) else BitAnd(x, mask)
  }

  /** The `n` elements stored from counter value `pos` on. */
  function Ring(data: seq<u64>, mask: u32, pos: u32, n: nat): (r: seq<u64>)
    requires mask < |data|
    ensures |r| == n
    decreases n
  {
    if n == 0 then [] else [data[Slot(data, mask, pos)]] + Ring(data, mask, Add32(pos, 1), n - 1)
  }

  /** The queue's contents, oldest first. */
  function Contents(q: QueueState): seq<u64>
    requires q.mask < |q.data|
  {
    Ring(q.data, q.mask, q.head, Occupancy(q))
  }

  /** The test `(int32_t)(tail - (base + mask)) > 0`. */
  predicate AppearsFull(tail: u32, base: u32, mask: u32)
  {
    Int32(Sub32(tail, Add32(base, mask))) > 0
  }

  datatype Enqueued = Enqueued(ok: bool, queue: QueueState)
  /** `elem` is what the caller's `*elem` holds afterwards: untouched on failure. */
  datatype Dequeued = Dequeued(ok: bool, elem: u64, queue: QueueState)

  /** The store `data[tail & mask] = elem` followed by `tail = tail + 1`. */
  function Publish(q: QueueState, elem: u64): QueueState
    requires q.mask < |q.data|
  {
    q.(data := q.data[Slot(q.data, q.mask, q.tail) := elem], tail := Add32(q.tail, 1))
  }

  /** The read `*elem = data[head & mask]` followed by `head = head + 1`. */
  function Consume(q: QueueState): Dequeued
    requires q.mask < |q.data|
  {
    Dequeued(true, q.data[Slot(q.data, q.mask, q.head)], q.(head := Add32(q.head, 1)))
  }

  /** `queue_enqueue_simple`: the producer never writes `head` or `cached_tail`, and
      a refused element leaves the queue as it was. */
  function EnqueueSimple(q: QueueState, elem: u64): (r: Enqueued)
    requires q.mask < |q.data|
    ensures r.queue.mask == q.mask && |r.queue.data| == |q.data|
    ensures r.queue.head == q.head && r.queue.cachedTail == q.cachedTail
    ensures r.ok ==> r.queue.tail == Add32(q.tail, 1)
    ensures !r.ok ==> r.queue.tail == q.tail && r.queue.data == q.data
    ensures !r.ok ==> r.queue == q
  {
    if AppearsFull(q.tail, q.head, q.mask) then Enqueued(false, q)
    else Enqueued(true, Publish(q, elem))
  }

  /** `queue_dequeue_simple`: the consumer never writes `tail`, `cached_head` or the
      data, and an empty queue leaves `*elem` and the queue as they were. */
  function DequeueSimple(q: QueueState, prev: u64): (r: Dequeued)
    requires q.mask < |q.data|
    ensures r.queue.mask == q.mask && r.queue.data == q.data
    ensures r.queue.tail == q.tail && r.queue.cachedHead == q.cachedHead
    ensures r.ok ==> r.queue.head == Add32(q.head, 1)
    ensures !r.ok ==> r.queue.head == q.head && r.elem == prev
    ensures !r.ok ==> r.queue == q
  {
    if q.tail == q.head then Dequeued(false, prev, q) else Consume(q)
  }

  /** `queue_enqueue`: consult the cached head, refresh it only when it says "full". */
  function Enqueue(q: QueueState, elem: u64): (r: Enqueued)
    requires q.mask < |q.data|
    ensures r.queue.mask == q.mask && |r.queue.data| == |q.data|
    ensures r.queue.head == q.head && r.queue.cachedTail == q.cachedTail
    ensures r.ok ==> r.queue.tail == Add32(q.tail, 1)
    ensures !r.ok ==> r.queue.tail == q.tail && r.queue.data == q.data
  {
    if AppearsFull(q.tail, q.cachedHead, q.mask) then
      var q1 := q.(cachedHead := q.head);
      if AppearsFull(q1.tail, q1.cachedHead, q1.mask) then Enqueued(false, q1)
      else Enqueued(true, Publish(q1, elem))
    else Enqueued(true, Publish(q, elem))
  }

  /** `queue_dequeue`: consult the cached tail, refresh it only when it says "empty". */
  function Dequeue(q: QueueState, prev: u64): (r: Dequeued)
    requires q.mask < |q.data|
    ensures r.queue.mask == q.mask && r.queue.data == q.data
    ensures r.queue.tail == q.tail && r.queue.cachedHead == q.cachedHead
    ensures r.ok ==> r.queue.head == Add32(q.head, 1)
    ensures !r.ok ==> r.queue.head == q.head && r.elem == prev
  {
    if q.cachedTail == q.head then
      var q1 := q.(cachedTail := q.tail);
      if q1.cachedTail == q1.head then Dequeued(false, prev, q1) else Consume(q1)
    else Consume(q)
  }

  /** The size test of `queue_init`: reject 0 and every size that is not a power of two. */
  predicate SizeRejected(size: u32)
  {
    size == 0 || BitAnd(size - 1, size) != 0
  }

  lemma SizeTest(size: u32)
    ensures SizeRejected(size) <==> size == 0 || !IsPow2(size)
  {
    if size > 0 { PowerOfTwoTest(size); }
  }

  /** `queue_init` as written: `mask` keeps whatever value the caller's QUEUE held. */
  function InitAsWritten(size: u32, priorMask: u32): (r: Option<QueueState>)
    ensures r.None? <==> size == 0 || !IsPow2(size)
    ensures r.Some? ==> && r.value.mask == priorMask && |r.value.data| == size
                        && r.value.head == r.value.tail == r.value.cachedHead == r.value.cachedTail == 0
  {
    SizeTest(size);
    if SizeRejected(size) then None
    else Some(QueueState(seq(size, _ => 0), priorMask, 0, 0, 0, 0))
  }

  /** `queue_init` with the missing `mask = size - 1` supplied. */
  function Init(size: u32): (r: Option<QueueState>)
    ensures r.None? <==> size == 0 || !IsPow2(size)
    ensures r.Some? ==> && Inv(r.value) && CacheInv(r.value)
                        && |r.value.data| == size && Contents(r.value) == []
                        && (forall i :: 0 <= i < size ==> r.value.data[i] == 0)
                        && r.value.head == r.value.tail == r.value.cachedHead == r.value.cachedTail == 0
  {
    SizeTest(size);
    if SizeRejected(size) then None
    else Some(QueueState(seq(size, _ => 0), size - 1, 0, 0, 0, 0))
  }

  // ---------------------------------------------------------------------------
  // Arithmetic facts about the wrapping counters
  // ---------------------------------------------------------------------------

  lemma Pow2BelowU32(n: nat)
    requires IsPow2(n) && n < U32
    ensures n <= I32_MIN_AS_U32
  {
    U32IsPow2();
    Pow2Below(n, U32);
  }

  lemma Sub32OfAdd32(t: u32, b: u32, m: u32)
    ensures Sub32(t, Add32(b, m)) == Sub32(Sub32(t, b), m)
  {
  }

  /** The signed full test says "at least `size`" as long as the distance measured is at
      most `size + 1`. */
  lemma FullTest(tail: u32, base: u32, mask: u32)
    requires mask < I32_MIN_AS_U32
    requires Sub32(tail, base) <= mask + 2
    ensures AppearsFull(tail, base, mask) <==> Sub32(tail, base) > mask
  {
    Sub32OfAdd32(tail, base, mask);
  }

  lemma SlotsDiffer(data: seq<u64>, mask: u32, pos: u32, n: nat)
    requires Layout(data, mask)
    requires 0 < n < |data|
    ensures Slot(data, mask, pos) != Slot(data, mask, Add32(pos, n))
  {
    ModModU32(pos + n, |data|);
    ModDistinct(pos, pos + n, |data|);
  }

  /** Writing the slot just past the last element and advancing the count appends. */
  lemma {:induction false} RingAppend(data: seq<u64>, mask: u32, pos: u32, n: nat, e: u64)
    requires Layout(data, mask)
    requires n < |data|
    ensures Ring(data[Slot(data, mask, Add32(pos, n)) := e], mask, pos, n + 1)
            == Ring(data, mask, pos, n) + [e]
    decreases n
  {
    var d' := data[Slot(data, mask, Add32(pos, n)) := e];
    if n == 0 {
      assert Add32(pos, 0) == pos;
      assert Ring(d', mask, pos, 1) == [d'[Slot(d', mask, pos)]] + Ring(d', mask, Add32(pos, 1), 0);
    } else {
      SlotsDiffer(data, mask, pos, n);
      assert Add32(Add32(pos, 1), n - 1) == Add32(pos, n);
      RingAppend(data, mask, Add32(pos, 1), n - 1, e);
    }
  }

  // ---------------------------------------------------------------------------
  // The simple operations
  // ---------------------------------------------------------------------------

  /** `queue_enqueue_simple` fails exactly when the queue holds `size` elements, and then
      changes nothing; otherwise it appends `elem`, writing only `data[tail & mask]` and
      `tail`.  The occupancy bound is kept. */
  lemma EnqueueSimpleCorrect(q: QueueState, elem: u64)
    requires Inv(q)
    ensures var r := EnqueueSimple(q, elem);
      && (r.ok <==> |Contents(q)| < |q.data|)
      && (!r.ok ==> r.queue == q)
      && (r.ok ==> && r.queue == q.(data := q.data[Slot(q.data, q.mask, q.tail) := elem],
                                    tail := Add32(q.tail, 1))
                   && Contents(r.queue) == Contents(q) + [elem])
      && Inv(r.queue)
  {
    Pow2BelowU32(|q.data|);
    FullTest(q.tail, q.head, q.mask);
    if !AppearsFull(q.tail, q.head, q.mask) {
      assert Add32(q.head, Occupancy(q)) == q.tail;
      RingAppend(q.data, q.mask, q.head, Occupancy(q), elem);
      assert Occupancy(Publish(q, elem)) == Occupancy(q) + 1;
    }
  }

  /** `queue_dequeue_simple` fails exactly when `tail == head` (the queue is empty) and then
      changes nothing; otherwise it yields the oldest element and advances only `head`. */
  lemma DequeueSimpleCorrect(q: QueueState, prev: u64)
    requires Inv(q)
    ensures var r := DequeueSimple(q, prev);
      && (r.ok <==> Contents(q) != [])
      && (!r.ok ==> r.queue == q && r.elem == prev)
      && (r.ok ==> && r.queue == q.(head := Add32(q.head, 1))
                   && r.elem == q.data[Slot(q.data, q.mask, q.head)]
                   && r.elem == Contents(q)[0]
                   && Contents(r.queue) == Contents(q)[1..])
      && Inv(r.queue)
  {
    if q.tail != q.head {
      var q' := q.(head := Add32(q.head, 1));
      assert Occupancy(q') == Occupancy(q) - 1;
    }
  }

  // ---------------------------------------------------------------------------
  // The cached operations
  // ---------------------------------------------------------------------------

  /** Under the cache invariant `queue_enqueue` answers as `queue_enqueue_simple` does and
      leaves data, head and tail as it does; it refreshes `cached_head` exactly when the
      cached distance says "full", and keeps both invariants. */
  lemma EnqueueAgreesWithSimple(q: QueueState, elem: u64)
    requires Inv(q) && CacheInv(q)
    ensures var r, s := Enqueue(q, elem), EnqueueSimple(q, elem);
      && r.ok == s.ok
      && r.queue.(cachedHead := s.queue.cachedHead) == s.queue
      && r.queue.cachedHead == (if Sub32(q.tail, q.cachedHead) == |q.data| then q.head else q.cachedHead)
      && Inv(r.queue) && CacheInv(r.queue)
  {
    Pow2BelowU32(|q.data|);
    FullTest(q.tail, q.cachedHead, q.mask);
    FullTest(q.tail, q.head, q.mask);
    EnqueueSimpleCorrect(q, elem);
  }

  /** Under the cache invariant `queue_dequeue` answers and yields as `queue_dequeue_simple`
      does and leaves data, head and tail as it does; it refreshes `cached_tail` exactly
      when the cached tail equals head, and keeps both invariants. */
  lemma DequeueAgreesWithSimple(q: QueueState, prev: u64)
    requires Inv(q) && CacheInv(q)
    ensures var r, s := Dequeue(q, prev), DequeueSimple(q, prev);
      && r.ok == s.ok && r.elem == s.elem
      && r.queue.(cachedTail := s.queue.cachedTail) == s.queue
      && r.queue.cachedTail == (if q.cachedTail == q.head then q.tail else q.cachedTail)
      && Inv(r.queue) && CacheInv(r.queue)
  {
    DequeueSimpleCorrect(q, prev);
  }

  // ---------------------------------------------------------------------------
  // Histories: first in, first out
  // ---------------------------------------------------------------------------

  /** One call of a single-threaded history; `Take` passes 0 as the caller's `*elem`. */
  datatype Call = Put(elem: u64) | Take

  /** The state after a history, and the values that were successfully enqueued and
      successfully dequeued, in call order. */
  datatype History = History(queue: QueueState, enqueued: seq<u64>, dequeued: seq<u64>)

  /** One enqueue through the cached operation (`cached`) or the simple one. */
  function PutWith(q: QueueState, e: u64, cached: bool): (r: Enqueued)
    requires q.mask < |q.data|
    ensures r.queue.mask == q.mask && |r.queue.data| == |q.data|
  {
    if cached then Enqueue(q, e) else EnqueueSimple(q, e)
  }

  /** One dequeue through the cached operation (`cached`) or the simple one. */
  function TakeWith(q: QueueState, cached: bool): (r: Dequeued)
    requires q.mask < |q.data|
    ensures r.queue.mask == q.mask && r.queue.data == q.data
  {
    if cached then Dequeue(q, 0) else DequeueSimple(q, 0)
  }

  /** Runs `calls` through the cached operations (`cached`) or the simple ones. */
  function Run(q: QueueState, calls: seq<Call>, cached: bool): (h: History)
    requires q.mask < |q.data|
    ensures h.queue.mask == q.mask && |h.queue.data| == |q.data|
    ensures |h.enqueued| + |h.dequeued| <= |calls|
    decreases |calls|
  {
    if calls == [] then History(q, [], [])
    else match calls[0]
      case Put(e) =>
        var r := PutWith(q, e, cached);
        var h := Run(r.queue, calls[1..], cached);
        History(h.queue, (if r.ok then [e] else []) + h.enqueued, h.dequeued)
      case Take =>
        var r := TakeWith(q, cached);
        var h := Run(r.queue, calls[1..], cached);
        History(h.queue, h.enqueued, (if r.ok then [r.elem] else []) + h.dequeued)
  }

  lemma PutStep(q: QueueState, e: u64, cached: bool)
    requires Inv(q) && (cached ==> CacheInv(q))
    ensures var r := PutWith(q, e, cached);
      && Inv(r.queue) && (cached ==> CacheInv(r.queue))
      && Contents(r.queue) == Contents(q) + (if r.ok then [e] else [])
  {
    EnqueueSimpleCorrect(q, e);
    if cached { EnqueueAgreesWithSimple(q, e); }
  }

  lemma TakeStep(q: QueueState, cached: bool)
    requires Inv(q) && (cached ==> CacheInv(q))
    ensures var r := TakeWith(q, cached);
      && Inv(r.queue) && (cached ==> CacheInv(r.queue))
      && Contents(q) == (if r.ok then [r.elem] else []) + Contents(r.queue)
  {
    DequeueSimpleCorrect(q, 0);
    if cached { DequeueAgreesWithSimple(q, 0); }
  }

  /** FIFO: what the queue held plus everything enqueued equals everything dequeued plus
      what the queue holds at the end. */
  lemma {:induction false} RunFifo(q: QueueState, calls: seq<Call>, cached: bool)
    requires Inv(q) && (cached ==> CacheInv(q))
    ensures var h := Run(q, calls, cached);
      && Inv(h.queue) && (cached ==> CacheInv(h.queue))
      && Contents(q) + h.enqueued == h.dequeued + Contents(h.queue)
    decreases |calls|, 1
  {
    if calls != [] {
      if calls[0].Put? { RunFifoPut(q, calls, cached); } else { RunFifoTake(q, calls, cached); }
    }
  }

  lemma {:induction false} RunFifoPut(q: QueueState, calls: seq<Call>, cached: bool)
    requires Inv(q) && (cached ==> CacheInv(q))
    requires calls != [] && calls[0].Put?
    ensures var h := Run(q, calls, cached);
      && Inv(h.queue) && (cached ==> CacheInv(h.queue))
      && Contents(q) + h.enqueued == h.dequeued + Contents(h.queue)
    decreases |calls|, 0
  {
    var e := calls[0].elem;
    PutStep(q, e, cached);
    var r := PutWith(q, e, cached);
    RunFifo(r.queue, calls[1..], cached);
    var h := Run(r.queue, calls[1..], cached);
    var put := if r.ok then [e] else [];
    assert Run(q, calls, cached) == History(h.queue, put + h.enqueued, h.dequeued);
    ShiftLeft(Contents(q), put, Contents(r.queue), h.enqueued, h.dequeued, Contents(h.queue));
  }

  lemma {:induction false} RunFifoTake(q: QueueState, calls: seq<Call>, cached: bool)
    requires Inv(q) && (cached ==> CacheInv(q))
    requires calls != [] && calls[0].Take?
    ensures var h := Run(q, calls, cached);
      && Inv(h.queue) && (cached ==> CacheInv(h.queue))
      && Contents(q) + h.enqueued == h.dequeued + Contents(h.queue)
    decreases |calls|, 0
  {
    TakeStep(q, cached);
    var r := TakeWith(q, cached);
    RunFifo(r.queue, calls[1..], cached);
    var h := Run(r.queue, calls[1..], cached);
    var took := if r.ok then [r.elem] else [];
    assert Run(q, calls, cached) == History(h.queue, h.enqueued, took + h.dequeued);
    ShiftRight(Contents(q), took, Contents(r.queue), h.enqueued, h.dequeued, Contents(h.queue));
  }

  lemma ShiftLeft(c0: seq<u64>, put: seq<u64>, c1: seq<u64>, enq: seq<u64>, deq: seq<u64>, c2: seq<u64>)
    requires c1 == c0 + put && c1 + enq == deq + c2
    ensures c0 + (put + enq) == deq + c2
  {
    assert c0 + (put + enq) == (c0 + put) + enq;
  }

  lemma ShiftRight(c0: seq<u64>, took: seq<u64>, c1: seq<u64>, enq: seq<u64>, deq: seq<u64>, c2: seq<u64>)
    requires c0 == took + c1 && c1 + enq == deq + c2
    ensures c0 + enq == (took + deq) + c2
  {
    assert c0 + enq == took + (c1 + enq);
    assert (took + deq) + c2 == took + (deq + c2);
  }

  /** From a freshly initialised queue, the k-th successful dequeue yields the k-th
      successfully enqueued value, for either flavour of the operations. */
  lemma FifoFromInit(size: u32, calls: seq<Call>, cached: bool)
    requires Init(size).Some?
    ensures var h := Run(Init(size).value, calls, cached);
      && |h.dequeued| <= |h.enqueued|
      && forall k :: 0 <= k < |h.dequeued| ==> h.dequeued[k] == h.enqueued[k]
  {
    var h := Run(Init(size).value, calls, cached);
    RunFifo(Init(size).value, calls, cached);
    assert h.enqueued == h.dequeued + Contents(h.queue);
  }

  // ---------------------------------------------------------------------------
  // The benchmark's mix: a cached first attempt, simple retries
  // ---------------------------------------------------------------------------

  /** The producer's cache when retries go through `queue_enqueue_simple`: the cached head
      lags the real head, and tail is at most `size` past it, or `size + 1` once a simple
      retry has succeeded on a refreshed cache (`retrying` says the last enqueue failed). */
  predicate ProducerCache(q: QueueState, retrying: bool)
  {
    Sub32(q.head, q.cachedHead) <= Sub32(q.tail, q.cachedHead) <= |q.data| + (if retrying then 0 else 1)
  }

  /** Distances from the cached head add up along the window. */
  lemma SubChain(t: u32, h: u32, c: u32)
    requires Sub32(h, c) <= Sub32(t, c)
    ensures Sub32(t, h) == Sub32(t, c) - Sub32(h, c)
  {
  }

  /** The producer of the mixed build: the first attempt at a value is `queue_enqueue`,
      each retry after a refusal is `queue_enqueue_simple`. */
  function PutMixed(q: QueueState, e: u64, retrying: bool): (r: Enqueued)
    requires q.mask < |q.data|
    ensures r.queue.mask == q.mask && |r.queue.data| == |q.data|
  {
    if retrying then EnqueueSimple(q, e) else Enqueue(q, e)
  }

  /** A cached first attempt, under the looser producer cache, answers as
      `queue_enqueue_simple` does and appends what it accepts. */
  lemma PutMixedFirst(q: QueueState, e: u64)
    requires Inv(q) && ProducerCache(q, false)
    ensures var r := Enqueue(q, e);
      && r.ok == EnqueueSimple(q, e).ok
      && Inv(r.queue) && ProducerCache(r.queue, !r.ok)
      && Contents(r.queue) == Contents(q) + (if r.ok then [e] else [])
  {
    Pow2BelowU32(|q.data|);
    FullTest(q.tail, q.cachedHead, q.mask);
    FullTest(q.tail, q.head, q.mask);
    SubChain(q.tail, q.head, q.cachedHead);
    EnqueueSimpleCorrect(q, e);
    var s := EnqueueSimple(q, e);
    if AppearsFull(q.tail, q.cachedHead, q.mask) {
      var q1 := q.(cachedHead := q.head);
      assert Contents(q1) == Contents(q);
      if s.ok {
        assert Enqueue(q, e).queue == s.queue.(cachedHead := q.head);
        assert Contents(Enqueue(q, e).queue) == Contents(s.queue);
      }
    }
  }

  /** Each producer call of the mixed build keeps the invariant and the looser producer
      cache, and appends exactly what it accepts. */
  lemma PutMixedStep(q: QueueState, e: u64, retrying: bool)
    requires Inv(q) && ProducerCache(q, retrying)
    ensures var r := PutMixed(q, e, retrying);
      && Inv(r.queue) && ProducerCache(r.queue, !r.ok)
      && Contents(r.queue) == Contents(q) + (if r.ok then [e] else [])
  {
    if retrying {
      EnqueueSimpleCorrect(q, e);
      SubChain(q.tail, q.head, q.cachedHead);
    } else {
      PutMixedFirst(q, e);
    }
  }

  /** A simple dequeue keeps the looser producer cache. */
  lemma TakeMixedStep(q: QueueState, retrying: bool)
    requires Inv(q) && ProducerCache(q, retrying)
    ensures var r := DequeueSimple(q, 0);
      && Inv(r.queue) && ProducerCache(r.queue, retrying)
      && Contents(q) == (if r.ok then [r.elem] else []) + Contents(r.queue)
  {
    DequeueSimpleCorrect(q, 0);
    SubChain(q.tail, q.head, q.cachedHead);
  }

  /** Runs `calls` as the mixed build does: producer calls by `PutMixed`, consumer calls by
      `queue_dequeue_simple`. */
  function RunMixed(q: QueueState, calls: seq<Call>, retrying: bool): (h: History)
    requires q.mask < |q.data|
    ensures h.queue.mask == q.mask && |h.queue.data| == |q.data|
    ensures |h.enqueued| + |h.dequeued| <= |calls|
    decreases |calls|
  {
    if calls == [] then History(q, [], [])
    else match calls[0]
      case Put(e) =>
        var r := PutMixed(q, e, retrying);
        var h := RunMixed(r.queue, calls[1..], !r.ok);
        History(h.queue, (if r.ok then [e] else []) + h.enqueued, h.dequeued)
      case Take =>
        var r := DequeueSimple(q, 0);
        var h := RunMixed(r.queue, calls[1..], retrying);
        History(h.queue, h.enqueued, (if r.ok then [r.elem] else []) + h.dequeued)
  }

  /** FIFO for the mixed build: what the queue held plus everything enqueued equals
      everything dequeued plus what the queue holds at the end. */
  lemma {:induction false} RunMixedFifo(q: QueueState, calls: seq<Call>, retrying: bool)
    requires Inv(q) && ProducerCache(q, retrying)
    ensures var h := RunMixed(q, calls, retrying);
      && Inv(h.queue)
      && Contents(q) + h.enqueued == h.dequeued + Contents(h.queue)
    decreases |calls|
  {
    if calls != [] {
      match calls[0]
      case Put(e) =>
        PutMixedStep(q, e, retrying);
        var r := PutMixed(q, e, retrying);
        RunMixedFifo(r.queue, calls[1..], !r.ok);
        var h := RunMixed(r.queue, calls[1..], !r.ok);
        ShiftLeft(Contents(q), if r.ok then [e] else [], Contents(r.queue), h.enqueued, h.dequeued, Contents(h.queue));
      case Take =>
        TakeMixedStep(q, retrying);
        var r := DequeueSimple(q, 0);
        RunMixedFifo(r.queue, calls[1..], retrying);
        var h := RunMixed(r.queue, calls[1..], retrying);
        ShiftRight(Contents(q), if r.ok then [r.elem] else [], Contents(r.queue), h.enqueued, h.dequeued, Contents(h.queue));
    }
  }

  /** From a freshly initialised queue, the mixed build also delivers the k-th successfully
      enqueued value as the k-th successfully dequeued one. */
  lemma MixedFifoFromInit(size: u32, calls: seq<Call>)
    requires Init(size).Some?
    ensures var h := RunMixed(Init(size).value, calls, false);
      && |h.dequeued| <= |h.enqueued|
      && forall k :: 0 <= k < |h.dequeued| ==> h.dequeued[k] == h.enqueued[k]
  {
    var h := RunMixed(Init(size).value, calls, false);
    RunMixedFifo(Init(size).value, calls, false);
    assert h.enqueued == h.dequeued + Contents(h.queue);
  }

  /** Mixing the two dequeues is outside the cache invariant: after a simple enqueue and
      a simple dequeue on a queue of size 2, `queue_dequeue` trusts the stale cached tail
      and reports an element on the empty queue, leaving an occupancy of 2^32 - 1. */
  lemma MixedDequeuesBreak()
    ensures var q := Init(2).value;
      && var r1 := EnqueueSimple(q, 1);
         var r2 := DequeueSimple(r1.queue, 0);
         var r3 := Dequeue(r2.queue, 0);
         && r1.ok && r2.ok && r2.elem == 1 && Contents(r2.queue) == []
         && r3.ok && !Inv(r3.queue)
  {
    var q := Init(2).value;
    EnqueueSimpleCorrect(q, 1);
    var r1 := EnqueueSimple(q, 1);
    DequeueSimpleCorrect(r1.queue, 0);
    var r2 := DequeueSimple(r1.queue, 0);
    assert r2.queue.head == 1 && r2.queue.tail == 1 && r2.queue.cachedTail == 0;
    assert Occupancy(Dequeue(r2.queue, 0).queue) == Sub32(1, 2);
  }

  /** Two states that differ only in their cache fields. */
  predicate SameButCaches(a: QueueState, b: QueueState)
  {
    a.data == b.data && a.mask == b.mask && a.head == b.head && a.tail == b.tail
  }

  /** A history of cached operations has the same effect on data, head and tail, and
      delivers the same values, as the same history of simple operations. */
  lemma {:induction false} RunCachedAgreesWithSimple(qc: QueueState, qs: QueueState, calls: seq<Call>)
    requires Inv(qc) && CacheInv(qc) && SameButCaches(qc, qs)
    ensures var hc, hs := Run(qc, calls, true), Run(qs, calls, false);
      && SameButCaches(hc.queue, hs.queue)
      && hc.enqueued == hs.enqueued && hc.dequeued == hs.dequeued
    decreases |calls|
  {
    if calls != [] {
      match calls[0]
      case Put(e) =>
        EnqueueAgreesWithSimple(qc, e);
        EnqueueSimpleCorrect(qc, e);
        RunCachedAgreesWithSimple(Enqueue(qc, e).queue, EnqueueSimple(qs, e).queue, calls[1..]);
      case Take =>
        DequeueAgreesWithSimple(qc, 0);
        DequeueSimpleCorrect(qc, 0);
        RunCachedAgreesWithSimple(Dequeue(qc, 0).queue, DequeueSimple(qs, 0).queue, calls[1..]);
    }
  }

  // ---------------------------------------------------------------------------
  // queue_init never assigns mask
  // ---------------------------------------------------------------------------

  /** With `queue_init` as written and a zero-filled QUEUE (mask 0), a queue of size 8
      accepts one element and refuses the second. */
  lemma UnsetMaskShrinksCapacity()
    ensures var q := InitAsWritten(8, 0);
      && q.Some?
      && var r1 := EnqueueSimple(q.value, 1);
         var r2 := EnqueueSimple(r1.queue, 2);
         r1.ok && !r2.ok && |Contents(r2.queue)| == 1 < |q.value.data|
  {
    var q := InitAsWritten(8, 0);
    assert BitAnd(7, 8) != 0 ==> false by {
      assert BitAnd(7, 8) == 2 * BitAnd(3, 4);
      assert BitAnd(3, 4) == 2 * BitAnd(1, 2);
      assert BitAnd(1, 2) == 2 * BitAnd(0, 1);
    }
    var r1 := EnqueueSimple(q.value, 1);
    assert r1.queue.tail == 1;
    assert Sub32(1, Add32(0, 0)) == 1;
    assert Occupancy(r1.queue) == 1;
  }
}
