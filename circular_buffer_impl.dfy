/** QUEUE as an object whose fields the four operations update in place, each proved
    to make exactly the state change of its value-level counterpart in CircularBuffer. */
module CircularBufferImpl {
  import opened Uint
  import opened PowerOfTwo
  import opened Wrappers
  import CB = CircularBuffer

  class Queue {
    var data: array<u64>
    var mask: u32
    var cachedHead: u32
    var cachedTail: u32
    var head: u32
    var tail: u32

    /** The fields as a value. */
    function State(): CB.QueueState
      reads this, data
    {
      CB.QueueState(data[..], mask, cachedHead, cachedTail, head, tail)
    }

    /** What every access `data[x & mask]` needs to stay in bounds. */
    predicate Valid()
      reads this
    {
      mask < data.Length
    }

    /** `queue_init` for an accepted size, with `mask = size - 1`; the array is zero-filled. */
    constructor (size: u32)
      requires !CB.SizeRejected(size)
      ensures Valid() && fresh(data)
      ensures State() == CB.Init(size).value
    {
      CB.SizeTest(size);
      data := new u64[size](_ => 0);
      mask := size - 1;
      cachedHead, cachedTail, head, tail := 0, 0, 0, 0;
      new;
      assert data[..] == seq(size, _ => 0);
    }

    /** The slot `x & mask`. */
    function Index(x: u32): (i: nat)
      reads this
      requires Valid()
      ensures i < data.Length && i == BitAnd(x, mask)
    {
      CB.BitAndBelow(x, mask);
      BitAnd(x, mask)
    }

    method EnqueueSimple(elem: u64) returns (ok: bool)
      requires Valid()
      modifies this, data
      ensures Valid() && data == old(data)
      ensures CB.EnqueueSimple(old(State()), elem) == CB.Enqueued(ok, State())
    {
      var h := head;
      var t := tail;
      if Int32(Sub32(t, Add32(h, mask))) > 0 {
        return false;
      }
      data[Index(t)] := elem;
      tail := Add32(t, 1);
      ok := true;
    }

    /** `elem` is the caller's `*elem`: passed in as `prev` and returned unchanged on failure. */
    method DequeueSimple(prev: u64) returns (ok: bool, elem: u64)
      requires Valid()
      modifies this
      ensures Valid() && data == old(data)
      ensures CB.DequeueSimple(old(State()), prev) == CB.Dequeued(ok, elem, State())
    {
      var h := head;
      var t := tail;
      if t == h {
        return false, prev;
      }
      elem := data[Index(h)];
      head := Add32(h, 1);
      ok := true;
    }

    method Enqueue(elem: u64) returns (ok: bool)
      requires Valid()
      modifies this, data
      ensures Valid() && data == old(data)
      ensures CB.Enqueue(old(State()), elem) == CB.Enqueued(ok, State())
    {
      var t := tail;
      if Int32(Sub32(t, Add32(cachedHead, mask))) > 0 {
        cachedHead := head;
        if Int32(Sub32(t, Add32(cachedHead, mask))) > 0 {
          return false;
        }
      }
      data[Index(t)] := elem;
      tail := Add32(t, 1);
      ok := true;
    }

    method Dequeue(prev: u64) returns (ok: bool, elem: u64)
      requires Valid()
      modifies this
      ensures Valid() && data == old(data)
      ensures CB.Dequeue(old(State()), prev) == CB.Dequeued(ok, elem, State())
    {
      var h := head;
      if cachedTail == h {
        cachedTail := tail;
        if cachedTail == h {
          return false, prev;
        }
      }
      elem := data[Index(h)];
      head := Add32(h, 1);
      ok := true;
    }
  }

  /** `queue_init`: `None` where the source reports a size that is not a power of two
      and exits; otherwise a fresh queue in the state `CB.Init` describes. */
  method NewQueue(size: u32) returns (r: Option<Queue>)
    ensures r.None? <==> size == 0 || !IsPow2(size)
    ensures r.Some? ==> fresh(r.value) && fresh(r.value.data) && r.value.Valid()
                        && r.value.State() == CB.Init(size).value
  {
    CB.SizeTest(size);
    if size == 0 || BitAnd(size - 1, size) != 0 {
      return None;
    }
    var q := new Queue(size);
    return Some(q);
  }
}
