/** The Linux AIO copy: the source size is rounded up to whole blocks, up to QUEUE_SIZE
    control blocks are primed with reads at consecutive block offsets, and then each
    round submits the queued control blocks, takes the finished events and re-arms every
    finished control block according to its opcode: a read that returned bytes becomes a
    write of that many bytes at the same offset from the same buffer, a write becomes the
    next read while data remains, and a zero result retires the control block.  Results
    are not checked for errors.  Kernel answers are inputs. */
module LinuxAioCopy {
  import opened Uint
  import opened Counting
  import opened BlockMath

  const READ_BLOCK_SIZE: nat := 8192
  const QUEUE_SIZE: nat := 64

  datatype Opcode = PRead | PWrite

  /** The fields of struct iocb that the copy sets; the memset in the setup helpers
      leaves every other field zero. */
  datatype Iocb = Iocb(fildes: int, opcode: Opcode, reqprio: int, buf: nat, nbytes: u64, offset: int)

  /** `io_read_setup`: a fresh control block, whatever the previous one held. */
  function IoReadSetup(fd: int, offset: int, buf: nat, size: u64): (r: Iocb)
    ensures r.opcode == PRead && r.reqprio == 0
    ensures r.fildes == fd && r.offset == offset && r.buf == buf && r.nbytes == size
  {
    Iocb(fd, PRead, 0, buf, size, offset)
  }

  /** `io_write_setup`: a fresh control block, whatever the previous one held. */
  function IoWriteSetup(fd: int, offset: int, buf: nat, size: u64): (r: Iocb)
    ensures r.opcode == PWrite && r.reqprio == 0
    ensures r.fildes == fd && r.offset == offset && r.buf == buf && r.nbytes == size
  {
    Iocb(fd, PWrite, 0, buf, size, offset)
  }

  /** Where a control block stands with the kernel: unused or retired, waiting in the
      submit list, or submitted and not yet reported. */
  datatype CellStage = Free | Queued | InFlight

  /** The copy's variables: `submitList` stands for `submit_list[0 .. num_to_submit)` as
      cell indices, so `num_to_submit` is its length; `stages` is the kernel's side. */
  datatype AioState = AioState(
    srcFd: int, dstFd: int, srcSize: nat, srcOff: nat, numIoReqs: u64,
    iocbs: seq<Iocb>, submitList: seq<nat>, stages: seq<CellStage>)

  /** A control block set up for a cell. */
  datatype Setup = Setup(cell: nat, iocb: Iocb)

  /** The state, every control block set up so far in order, the offsets of the blocks
      whose write was reported with a non-zero result and of the blocks whose read or
      write was reported with 0 bytes. */
  datatype Trace = Trace(state: AioState, log: seq<Setup>, written: seq<int>, lost: seq<int>)

  /** A finished event: the control block (a cell) and the result `io_ret`, as an unbounded
      integer; it reaches `io_write_setup` through the size_t conversion `ToSizeT`. */
  datatype Event = Event(cell: nat, res: int)

  /** What the kernel answers in one round: `io_submit` fails, `io_getevents` fails, or
      the events it returns. */
  datatype Round = SubmitFailed | GetEventsFailed | Events(evs: seq<Event>)

  datatype Failure = SubmitError | GetEventsError

  /** `Running`: the loop is still going when the rounds given run out. */
  datatype Outcome =
    | Running(trace: Trace)
    | Aborted(failure: Failure, trace: Trace)
    | Completed(trace: Trace)

  /** The block-sized slice of the buffer that cell `i` reads into, as an offset. */
  function Slice(i: nat): nat
  {
    i * READ_BLOCK_SIZE
  }

  function Min(a: int, b: int): int
  {
    if a < b then a else b
  }

  // ---------------------------------------------------------------------------
  // The operations
  // ---------------------------------------------------------------------------

  predicate Shaped(s: AioState)
  {
    |s.iocbs| == |s.stages| == QUEUE_SIZE
  }

  /** The state before priming; control blocks not primed are never read, so their
      initial contents (stack garbage in the source) do not matter. */
  function Start(srcFd: int, dstFd: int, srcSize: nat): (t: Trace)
    ensures Shaped(t.state)
  {
    Trace(AioState(srcFd, dstFd, srcSize, 0, 0, seq(QUEUE_SIZE, _ => IoReadSetup(0, 0, 0, 0)), [],
                   seq(QUEUE_SIZE, _ => Free)), [], [], [])
  }

  /** Set up `a` in `cell` and append the cell to the submit list. */
  function Enqueue(t: Trace, cell: nat, a: Iocb): (r: Trace)
    requires Shaped(t.state) && cell < QUEUE_SIZE
    ensures Shaped(r.state)
  {
    var s := t.state;
    t.(state := s.(iocbs := s.iocbs[cell := a], submitList := s.submitList + [cell],
                   stages := s.stages[cell := Queued]),
       log := t.log + [Setup(cell, a)])
  }

  /** One iteration of the priming loop. */
  function PrimeCell(t: Trace, i: nat): (r: Trace)
    requires Shaped(t.state) && i < QUEUE_SIZE
    ensures Shaped(r.state)
  {
    var q := Enqueue(t, i, IoReadSetup(t.state.srcFd, t.state.srcOff, Slice(i), READ_BLOCK_SIZE));
    q.(state := q.state.(srcOff := t.state.srcOff + READ_BLOCK_SIZE,
                         numIoReqs := ToSizeT(t.state.numIoReqs + 1)))
  }

  /** The priming loop from cell `i` on: it stops at QUEUE_SIZE cells or at the end of the
      rounded file. */
  function PrimeFrom(t: Trace, i: nat): (r: Trace)
    requires Shaped(t.state) && i <= QUEUE_SIZE
    ensures Shaped(r.state) && r.state.srcSize == t.state.srcSize && r.state.srcFd == t.state.srcFd
    ensures r.written == t.written && r.lost == t.lost
    ensures |t.log| <= |r.log| <= |t.log| + (QUEUE_SIZE - i) && r.log[..|t.log|] == t.log
    ensures r.state.srcOff == t.state.srcOff + (|r.log| - |t.log|) * READ_BLOCK_SIZE
    ensures |r.log| < |t.log| + (QUEUE_SIZE - i) ==> r.state.srcOff >= r.state.srcSize
    decreases QUEUE_SIZE - i
  {
    if i < QUEUE_SIZE && t.state.srcOff < t.state.srcSize then PrimeFrom(PrimeCell(t, i), i + 1) else t
  }

  function Promote(xs: seq<CellStage>): (r: seq<CellStage>)
    ensures |r| == |xs|
    ensures forall i :: 0 <= i < |xs| ==> r[i] == if xs[i] == Queued then InFlight else xs[i]
  {
    if xs == [] then [] else [if xs[0] == Queued then InFlight else xs[0]] + Promote(xs[1..])
  }

  /** `io_submit` of the submit list: every queued control block is now in flight. */
  function Submit(s: AioState): (r: AioState)
    ensures |r.stages| == |s.stages| && r.iocbs == s.iocbs
  {
    s.(stages := Promote(s.stages))
  }

  /** One finished event.  An event for a control block with no request in flight is not
      one the kernel can report, and is dropped. */
  function HandleEvent(t: Trace, ev: Event): (r: Trace)
    requires Shaped(t.state) && ev.cell < QUEUE_SIZE
    ensures Shaped(r.state) && r.state.srcSize == t.state.srcSize && r.state.srcFd == t.state.srcFd
    ensures |r.state.submitList| <= |t.state.submitList| + 1
    ensures t.state.stages[ev.cell] != InFlight ==> r == t
    ensures t.state.stages[ev.cell] == InFlight && ev.res == 0 ==>
      && r.state.stages[ev.cell] == Free
      && r.state.numIoReqs == ToSizeT(t.state.numIoReqs - 1)
      && r.lost == t.lost + [t.state.iocbs[ev.cell].offset]
    ensures r.state.srcOff == t.state.srcOff || r.state.srcOff == t.state.srcOff + READ_BLOCK_SIZE
    ensures var c, a := ev.cell, t.state.iocbs[ev.cell];
      t.state.stages[c] == InFlight && a.opcode == PRead && ev.res != 0 ==>
        && r.state.iocbs[c] == IoWriteSetup(t.state.dstFd, a.offset, a.buf, ToSizeT(ev.res))
        && r.state.stages[c] == Queued
        && r.state.numIoReqs == t.state.numIoReqs && r.state.srcOff == t.state.srcOff
    ensures var c, a := ev.cell, t.state.iocbs[ev.cell];
      t.state.stages[c] == InFlight && a.opcode == PWrite && ev.res != 0 && t.state.srcOff >= t.state.srcSize ==>
        r == Retire(t, c, true)
  {
    var s := t.state;
    var c := ev.cell;
    if s.stages[c] != InFlight then t
    else
      var a := s.iocbs[c];
      var t1 := t.(state := s.(stages := s.stages[c := Free]));
      if a.opcode == PRead then
        if ev.res != 0 then Enqueue(t1, c, IoWriteSetup(s.dstFd, a.offset, a.buf, ToSizeT(ev.res)))
        else t1.(state := t1.state.(numIoReqs := ToSizeT(s.numIoReqs - 1)), lost := t.lost + [a.offset])
      else if ev.res != 0 && s.srcOff < s.srcSize then
        var q := Enqueue(t1.(written := t.written + [a.offset]), c, IoReadSetup(s.srcFd, s.srcOff, a.buf, READ_BLOCK_SIZE));
        q.(state := q.state.(srcOff := s.srcOff + READ_BLOCK_SIZE))
      else
        var t2 := t1.(state := t1.state.(numIoReqs := ToSizeT(s.numIoReqs - 1)));
        if ev.res != 0 then t2.(written := t.written + [a.offset]) else t2.(lost := t.lost + [a.offset])
  }

  predicate EventsFit(evs: seq<Event>)
  {
    |evs| <= QUEUE_SIZE && forall j :: 0 <= j < |evs| ==> evs[j].cell < QUEUE_SIZE
  }

  /** The event-handling `for` loop. */
  function HandleEvents(t: Trace, evs: seq<Event>): (r: Trace)
    requires Shaped(t.state) && forall j :: 0 <= j < |evs| ==> evs[j].cell < QUEUE_SIZE
    ensures Shaped(r.state) && r.state.srcSize == t.state.srcSize && r.state.srcFd == t.state.srcFd
    decreases |evs|
  {
    if evs == [] then t else HandleEvents(HandleEvent(t, evs[0]), evs[1..])
  }

  /** One iteration of the main loop: submit, wait for events, reset the submit list and
      handle the events. */
  function DoRound(t: Trace, r: Round): (o: Outcome)
    requires Shaped(t.state) && (r.Events? ==> EventsFit(r.evs))
    ensures o.Completed? == false
    ensures Shaped(o.trace.state) && o.trace.state.srcSize == t.state.srcSize && o.trace.state.srcFd == t.state.srcFd
    ensures o.Aborted? <==> !r.Events?
    ensures o.Aborted? ==> o.failure == if r.SubmitFailed? then SubmitError else GetEventsError
  {
    match r
    case SubmitFailed => Aborted(SubmitError, t)
    case GetEventsFailed => Aborted(GetEventsError, t.(state := Submit(t.state)))
    case Events(evs) => Running(HandleEvents(t.(state := Submit(t.state).(submitList := [])), evs))
  }

  predicate RoundsFit(rounds: seq<Round>)
  {
    forall i :: 0 <= i < |rounds| ==> rounds[i].Events? ==> EventsFit(rounds[i].evs)
  }

  /** Neither system call fails in any round. */
  predicate NoFailures(rounds: seq<Round>)
  {
    forall i :: 0 <= i < |rounds| ==> rounds[i].Events?
  }

  /** `while (num_io_reqs != 0)`, one round per iteration. */
  function Loop(t: Trace, rounds: seq<Round>): (o: Outcome)
    requires Shaped(t.state) && RoundsFit(rounds)
    ensures Shaped(o.trace.state) && o.trace.state.srcSize == t.state.srcSize && o.trace.state.srcFd == t.state.srcFd
    ensures o.Completed? ==> o.trace.state.numIoReqs == 0
    ensures NoFailures(rounds) ==> !o.Aborted?
    decreases |rounds|
  {
    if t.state.numIoReqs == 0 then Completed(t)
    else if rounds == [] then Running(t)
    else
      var o := DoRound(t, rounds[0]);
      if o.Running? then Loop(o.trace, rounds[1..]) else o
  }

  /** The copy after the size has been rounded to `rounded`. */
  function CopyRounded(srcFd: int, dstFd: int, rounded: nat, rounds: seq<Round>): (o: Outcome)
    requires RoundsFit(rounds)
    ensures o.Completed? ==> o.trace.state.numIoReqs == 0
    ensures NoFailures(rounds) ==> !o.Aborted?
  {
    Loop(PrimeFrom(Start(srcFd, dstFd, rounded), 0), rounds)
  }

  /** The copy with the rounding as written, in uint32_t. */
  function CopyFileAsWritten(srcSize: u32, srcFd: int, dstFd: int, rounds: seq<Round>): (o: Outcome)
    requires RoundsFit(rounds)
    ensures srcSize < U32 - READ_BLOCK_SIZE ==> o == CopyFile(srcSize, srcFd, dstFd, rounds)
  {
    var rounded := RoundUp32(srcSize, READ_BLOCK_SIZE);
    assert srcSize < U32 - READ_BLOCK_SIZE ==> rounded == RoundUp(srcSize, READ_BLOCK_SIZE);
    CopyRounded(srcFd, dstFd, rounded, rounds)
  }

  /** The copy with the rounding done without wrap-around. */
  function CopyFile(srcSize: u32, srcFd: int, dstFd: int, rounds: seq<Round>): (o: Outcome)
    requires RoundsFit(rounds)
    ensures o.Completed? ==> o.trace.state.numIoReqs == 0
    ensures NoFailures(rounds) ==> !o.Aborted?
  {
    CopyRounded(srcFd, dstFd, RoundUp(srcSize, READ_BLOCK_SIZE), rounds)
  }

  // ---------------------------------------------------------------------------
  // The invariant
  // ---------------------------------------------------------------------------

  function OfOp(log: seq<Setup>, op: Opcode): (r: seq<Setup>)
  {
    if log == [] then []
    else OfOp(log[..|log| - 1], op) + (if log[|log| - 1].iocb.opcode == op then [log[|log| - 1]] else [])
  }

  lemma OfOpAppend(log: seq<Setup>, x: Setup, op: Opcode)
    ensures OfOp(log + [x], op) == OfOp(log, op) + (if x.iocb.opcode == op then [x] else [])
  {
    assert (log + [x])[..|log|] == log;
  }

  /** The counters agree with the cells, and the submit list holds each queued cell once. */
  predicate Counters(s: AioState)
  {
    && Shaped(s)
    && s.srcSize % READ_BLOCK_SIZE == 0 && s.srcOff % READ_BLOCK_SIZE == 0 && s.srcOff <= s.srcSize
    && s.numIoReqs == Count(s.stages, Queued) + Count(s.stages, InFlight)
    && |s.submitList| == Count(s.stages, Queued)
    && (forall j :: 0 <= j < |s.submitList| ==> s.submitList[j] < QUEUE_SIZE && s.stages[s.submitList[j]] == Queued)
    && (forall i, j :: 0 <= i < j < |s.submitList| ==> s.submitList[i] != s.submitList[j])
  }

  /** The k-th read is a full block at `k * READ_BLOCK_SIZE` into its cell's slice, and
      the cursor is where the reads end. */
  predicate ReadsTile(s: AioState, rds: seq<Setup>)
  {
    && s.srcOff == |rds| * READ_BLOCK_SIZE
    && forall k :: 0 <= k < |rds| ==>
         rds[k].cell < QUEUE_SIZE
         && rds[k].iocb == IoReadSetup(s.srcFd, k * READ_BLOCK_SIZE, Slice(rds[k].cell), READ_BLOCK_SIZE)
  }

  /** An active control block works on its cell's slice, on the block its own latest read
      fetched; as a read it is that read, as a write it targets the destination. */
  predicate CellsFromReads(s: AioState, rds: seq<Setup>)
    requires Shaped(s)
  {
    forall c :: 0 <= c < QUEUE_SIZE && s.stages[c] != Free ==>
      var a := s.iocbs[c];
      && a.buf == Slice(c)
      && 0 <= a.offset < s.srcOff && a.offset % READ_BLOCK_SIZE == 0
      && a.offset / READ_BLOCK_SIZE < |rds| && rds[a.offset / READ_BLOCK_SIZE].cell == c
      && (a.opcode == PRead ==> a == IoReadSetup(s.srcFd, a.offset, Slice(c), READ_BLOCK_SIZE))
      && (a.opcode == PWrite ==> a.fildes == s.dstFd && a.reqprio == 0)
  }

  /** Every write goes to the destination at the offset of a read by the same cell, from
      that cell's slice. */
  predicate WritesFromReads(s: AioState, rds: seq<Setup>, wrs: seq<Setup>)
  {
    forall j :: 0 <= j < |wrs| ==>
      var w := wrs[j];
      && w.iocb.fildes == s.dstFd && w.iocb.buf == Slice(w.cell) && w.iocb.reqprio == 0
      && 0 <= w.iocb.offset && w.iocb.offset % READ_BLOCK_SIZE == 0
      && w.iocb.offset / READ_BLOCK_SIZE < |rds| && rds[w.iocb.offset / READ_BLOCK_SIZE].cell == w.cell
  }

  /** Every block read so far has been written, was reported empty, or is still held by
      the cell that read it. */
  predicate ReadsAccounted(s: AioState, rds: seq<Setup>, written: seq<int>, lost: seq<int>)
    requires Shaped(s)
  {
    forall k :: 0 <= k < |rds| ==>
      || k * READ_BLOCK_SIZE in written
      || k * READ_BLOCK_SIZE in lost
      || (var c := rds[k].cell; c < QUEUE_SIZE && s.stages[c] != Free && s.iocbs[c].offset == k * READ_BLOCK_SIZE)
  }

  /** A block reported with 0 bytes is a whole block the cursor has passed. */
  predicate LostFromReads(s: AioState, lost: seq<int>)
  {
    forall j :: 0 <= j < |lost| ==> 0 <= lost[j] < s.srcOff && lost[j] % READ_BLOCK_SIZE == 0
  }

  predicate Inv(t: Trace)
  {
    var s, rds := t.state, OfOp(t.log, PRead);
    && Counters(s)
    && LostFromReads(s, t.lost)
    && ReadsTile(s, rds)
    && CellsFromReads(s, rds)
    && WritesFromReads(s, rds, OfOp(t.log, PWrite))
    && ReadsAccounted(s, rds, t.written, t.lost)
  }

  /** While data remains, every control block is active. */
  predicate Saturated(s: AioState)
    requires Shaped(s)
  {
    s.srcOff < s.srcSize ==> forall c :: 0 <= c < QUEUE_SIZE ==> s.stages[c] != Free
  }

  /** Some block before the last block of the rounded file was reported with 0 bytes. */
  predicate EarlyLoss(t: Trace)
  {
    exists x :: x in t.lost && x + READ_BLOCK_SIZE < t.state.srcSize
  }

  /** Every control block stays active while data remains, unless a block before the last
      one was reported empty: a zero result can only end the copy early that way. */
  predicate Covering(t: Trace)
    requires Shaped(t.state)
  {
    Saturated(t.state) || EarlyLoss(t)
  }

  // ---------------------------------------------------------------------------
  // Steps the proofs are phrased in
  // ---------------------------------------------------------------------------

  /** Arm `cell` with a full-block read at the cursor into `buf`, and count it. */
  function ReadNext(t: Trace, cell: nat, buf: nat): (r: Trace)
    requires Shaped(t.state) && cell < QUEUE_SIZE
    ensures Shaped(r.state)
  {
    var q := Enqueue(t, cell, IoReadSetup(t.state.srcFd, t.state.srcOff, buf, READ_BLOCK_SIZE));
    q.(state := q.state.(srcOff := t.state.srcOff + READ_BLOCK_SIZE,
                         numIoReqs := ToSizeT(t.state.numIoReqs + 1)))
  }

  /** Retire `cell`, recording its block as written (`done`) or as read empty. */
  function Retire(t: Trace, cell: nat, done: bool): (r: Trace)
    requires Shaped(t.state) && cell < QUEUE_SIZE
    ensures Shaped(r.state)
  {
    var s := t.state;
    var o := s.iocbs[cell].offset;
    t.(state := s.(stages := s.stages[cell := Free], numIoReqs := ToSizeT(s.numIoReqs - 1)),
       written := if done then t.written + [o] else t.written,
       lost := if done then t.lost else t.lost + [o])
  }

  /** A finished write that is re-armed is a retirement followed by a fresh read. */
  lemma WriteThenReadIsRetireThenRead(t: Trace, ev: Event)
    requires Inv(t) && ev.cell < QUEUE_SIZE && t.state.stages[ev.cell] == InFlight
    requires t.state.iocbs[ev.cell].opcode == PWrite && ev.res != 0 && t.state.srcOff < t.state.srcSize
    ensures HandleEvent(t, ev) == ReadNext(Retire(t, ev.cell, true), ev.cell, t.state.iocbs[ev.cell].buf)
  {
    CountPositive(t.state.stages, InFlight, ev.cell);
  }

  // ---------------------------------------------------------------------------
  // Each step keeps the invariant
  // ---------------------------------------------------------------------------

  lemma StartInv(srcFd: int, dstFd: int, srcSize: nat)
    requires srcSize % READ_BLOCK_SIZE == 0
    ensures Inv(Start(srcFd, dstFd, srcSize))
  {
    var s := Start(srcFd, dstFd, srcSize).state;
    CountAll(s.stages, Free);
    CountTwo(s.stages, Free, Queued);
    CountTwo(s.stages, Free, InFlight);
  }

  lemma CountersReadNext(s: AioState, s': AioState, cell: nat)
    requires Counters(s) && cell < QUEUE_SIZE && s.stages[cell] == Free && s.srcOff < s.srcSize
    requires s'.srcSize == s.srcSize && s'.srcOff == s.srcOff + READ_BLOCK_SIZE
    requires |s'.iocbs| == QUEUE_SIZE && s'.stages == s.stages[cell := Queued]
    requires s'.submitList == s.submitList + [cell] && s'.numIoReqs == ToSizeT(s.numIoReqs + 1)
    ensures Counters(s')
  {
    CountUpdate(s.stages, cell, Queued, Queued);
    CountUpdate(s.stages, cell, Queued, InFlight);
    CountTwo(s'.stages, Queued, InFlight);
    assert s.srcSize - s.srcOff >= READ_BLOCK_SIZE by {
      assert (s.srcSize - s.srcOff) % READ_BLOCK_SIZE == 0;
    }
  }

  lemma ReadsTileNext(s: AioState, s': AioState, rds: seq<Setup>, x: Setup)
    requires ReadsTile(s, rds)
    requires s'.srcFd == s.srcFd && s'.srcOff == s.srcOff + READ_BLOCK_SIZE
    requires x.cell < QUEUE_SIZE && x.iocb == IoReadSetup(s.srcFd, s.srcOff, Slice(x.cell), READ_BLOCK_SIZE)
    ensures ReadsTile(s', rds + [x])
  {
    var rds' := rds + [x];
    forall k | 0 <= k < |rds'|
      ensures rds'[k].cell < QUEUE_SIZE
      ensures rds'[k].iocb == IoReadSetup(s.srcFd, k * READ_BLOCK_SIZE, Slice(rds'[k].cell), READ_BLOCK_SIZE)
    {
      if k < |rds| { assert rds'[k] == rds[k]; }
    }
  }

  lemma CellsFromReadsNext(s: AioState, s': AioState, rds: seq<Setup>, x: Setup)
    requires Shaped(s) && Shaped(s') && CellsFromReads(s, rds) && ReadsTile(s, rds)
    requires x.cell < QUEUE_SIZE && s.stages[x.cell] == Free
    requires x.iocb == IoReadSetup(s.srcFd, s.srcOff, Slice(x.cell), READ_BLOCK_SIZE)
    requires s'.srcFd == s.srcFd && s'.dstFd == s.dstFd && s'.srcOff == s.srcOff + READ_BLOCK_SIZE
    requires s'.iocbs == s.iocbs[x.cell := x.iocb] && s'.stages == s.stages[x.cell := Queued]
    ensures CellsFromReads(s', rds + [x])
  {
    var rds' := rds + [x];
    forall c | 0 <= c < QUEUE_SIZE && s'.stages[c] != Free
      ensures var a := s'.iocbs[c];
        && a.buf == Slice(c)
        && 0 <= a.offset < s'.srcOff && a.offset % READ_BLOCK_SIZE == 0
        && a.offset / READ_BLOCK_SIZE < |rds'| && rds'[a.offset / READ_BLOCK_SIZE].cell == c
        && (a.opcode == PRead ==> a == IoReadSetup(s'.srcFd, a.offset, Slice(c), READ_BLOCK_SIZE))
        && (a.opcode == PWrite ==> a.fildes == s'.dstFd && a.reqprio == 0)
    {
      if c == x.cell {
        assert (|rds| * READ_BLOCK_SIZE) / READ_BLOCK_SIZE == |rds|;
      } else {
        assert rds'[s.iocbs[c].offset / READ_BLOCK_SIZE] == rds[s.iocbs[c].offset / READ_BLOCK_SIZE];
      }
    }
  }

  lemma WritesFromMoreReads(s: AioState, s': AioState, rds: seq<Setup>, x: Setup, wrs: seq<Setup>)
    requires WritesFromReads(s, rds, wrs) && s'.dstFd == s.dstFd
    ensures WritesFromReads(s', rds + [x], wrs)
  {
    forall j | 0 <= j < |wrs|
      ensures (rds + [x])[wrs[j].iocb.offset / READ_BLOCK_SIZE].cell == wrs[j].cell
    {
      assert (rds + [x])[wrs[j].iocb.offset / READ_BLOCK_SIZE] == rds[wrs[j].iocb.offset / READ_BLOCK_SIZE];
    }
  }

  lemma ReadsAccountedNext(s: AioState, s': AioState, rds: seq<Setup>, x: Setup, written: seq<int>, lost: seq<int>)
    requires Shaped(s) && Shaped(s') && ReadsAccounted(s, rds, written, lost) && ReadsTile(s, rds)
    requires x.cell < QUEUE_SIZE && s.stages[x.cell] == Free && x.iocb.offset == s.srcOff
    requires s'.iocbs == s.iocbs[x.cell := x.iocb] && s'.stages == s.stages[x.cell := Queued]
    ensures ReadsAccounted(s', rds + [x], written, lost)
  {
    var rds' := rds + [x];
    forall k | 0 <= k < |rds'|
      ensures || k * READ_BLOCK_SIZE in written
              || k * READ_BLOCK_SIZE in lost
              || (var c := rds'[k].cell;
                  c < QUEUE_SIZE && s'.stages[c] != Free && s'.iocbs[c].offset == k * READ_BLOCK_SIZE)
    {
      if k < |rds| { assert rds'[k] == rds[k]; }
    }
  }

  /** A full-block read at the cursor into a free cell's own slice keeps the invariant. */
  lemma ReadNextInv(t: Trace, cell: nat)
    requires Inv(t) && cell < QUEUE_SIZE && t.state.stages[cell] == Free && t.state.srcOff < t.state.srcSize
    ensures Inv(ReadNext(t, cell, Slice(cell)))
  {
    var s := t.state;
    var r := ReadNext(t, cell, Slice(cell));
    var x := Setup(cell, IoReadSetup(s.srcFd, s.srcOff, Slice(cell), READ_BLOCK_SIZE));
    var rds := OfOp(t.log, PRead);
    assert r.log == t.log + [x];
    OfOpAppend(t.log, x, PRead);
    OfOpAppend(t.log, x, PWrite);
    CountersReadNext(s, r.state, cell);
    ReadsTileNext(s, r.state, rds, x);
    CellsFromReadsNext(s, r.state, rds, x);
    WritesFromMoreReads(s, r.state, rds, x, OfOp(t.log, PWrite));
    ReadsAccountedNext(s, r.state, rds, x, t.written, t.lost);
  }

  lemma CountersRetire(s: AioState, s': AioState, cell: nat)
    requires Counters(s) && cell < QUEUE_SIZE && s.stages[cell] == InFlight
    requires s' == s.(stages := s.stages[cell := Free], numIoReqs := ToSizeT(s.numIoReqs - 1))
    ensures Counters(s') && s'.numIoReqs == s.numIoReqs - 1
  {
    CountPositive(s.stages, InFlight, cell);
    CountUpdate(s.stages, cell, Free, Queued);
    CountUpdate(s.stages, cell, Free, InFlight);
  }

  lemma ReadsAccountedRetire(s: AioState, s': AioState, rds: seq<Setup>, written: seq<int>, lost: seq<int>,
                             written': seq<int>, lost': seq<int>, cell: nat)
    requires Shaped(s) && Shaped(s') && ReadsAccounted(s, rds, written, lost)
    requires cell < QUEUE_SIZE && s'.iocbs == s.iocbs && s'.stages == s.stages[cell := Free]
    requires || (written' == written + [s.iocbs[cell].offset] && lost' == lost)
             || (written' == written && lost' == lost + [s.iocbs[cell].offset])
    ensures ReadsAccounted(s', rds, written', lost')
  {
    forall k | 0 <= k < |rds|
      ensures || k * READ_BLOCK_SIZE in written'
              || k * READ_BLOCK_SIZE in lost'
              || (var c := rds[k].cell;
                  c < QUEUE_SIZE && s'.stages[c] != Free && s'.iocbs[c].offset == k * READ_BLOCK_SIZE)
    {
      if rds[k].cell == cell && k * READ_BLOCK_SIZE !in written && k * READ_BLOCK_SIZE !in lost {
        assert k * READ_BLOCK_SIZE == s.iocbs[cell].offset;
      }
    }
  }

  /** Retiring an in-flight control block keeps the invariant and lowers `num_io_reqs`. */
  lemma RetireInv(t: Trace, cell: nat, done: bool)
    requires Inv(t) && cell < QUEUE_SIZE && t.state.stages[cell] == InFlight
    ensures var r := Retire(t, cell, done);
      Inv(r) && r.state.numIoReqs == t.state.numIoReqs - 1
  {
    var r := Retire(t, cell, done);
    CountersRetire(t.state, r.state, cell);
    ReadsAccountedRetire(t.state, r.state, OfOp(t.log, PRead), t.written, t.lost, r.written, r.lost, cell);
    assert LostFromReads(r.state, r.lost) by {
      if !done {
        forall j | 0 <= j < |r.lost|
          ensures 0 <= r.lost[j] < r.state.srcOff && r.lost[j] % READ_BLOCK_SIZE == 0
        {
          if j < |t.lost| { assert r.lost[j] == t.lost[j]; }
        }
      }
    }
  }

  /** A block reported with 0 bytes leaves the copy covering: either no data remains, or
      the block lies before the last one, since the cursor has passed it and is short of
      the end. */
  lemma LoseCovering(t: Trace, cell: nat)
    requires Inv(t) && cell < QUEUE_SIZE && t.state.stages[cell] == InFlight
    ensures Covering(Retire(t, cell, false))
  {
    var s := t.state;
    var o := s.iocbs[cell].offset;
    if s.srcOff < s.srcSize {
      assert s.srcSize - s.srcOff >= READ_BLOCK_SIZE by {
        assert (s.srcSize - s.srcOff) % READ_BLOCK_SIZE == 0;
      }
      assert o in Retire(t, cell, false).lost;
    }
  }

  lemma CountersSwap(s: AioState, s': AioState, cell: nat)
    requires Counters(s) && cell < QUEUE_SIZE && s.stages[cell] == InFlight
    requires s'.srcSize == s.srcSize && s'.srcOff == s.srcOff && s'.numIoReqs == s.numIoReqs
    requires |s'.iocbs| == QUEUE_SIZE && s'.stages == s.stages[cell := Queued]
    requires s'.submitList == s.submitList + [cell]
    ensures Counters(s')
  {
    CountUpdate(s.stages, cell, Queued, Queued);
    CountUpdate(s.stages, cell, Queued, InFlight);
  }

  lemma WritesFromReadsWrite(s: AioState, rds: seq<Setup>, wrs: seq<Setup>, x: Setup)
    requires Shaped(s) && WritesFromReads(s, rds, wrs) && CellsFromReads(s, rds)
    requires x.cell < QUEUE_SIZE && s.stages[x.cell] != Free
    requires x.iocb == IoWriteSetup(s.dstFd, s.iocbs[x.cell].offset, s.iocbs[x.cell].buf, x.iocb.nbytes)
    ensures WritesFromReads(s, rds, wrs + [x])
  {
    var wrs' := wrs + [x];
    forall j | 0 <= j < |wrs'|
      ensures var w := wrs'[j];
        && w.iocb.fildes == s.dstFd && w.iocb.buf == Slice(w.cell) && w.iocb.reqprio == 0
        && 0 <= w.iocb.offset && w.iocb.offset % READ_BLOCK_SIZE == 0
        && w.iocb.offset / READ_BLOCK_SIZE < |rds| && rds[w.iocb.offset / READ_BLOCK_SIZE].cell == w.cell
    {
      if j < |wrs| { assert wrs'[j] == wrs[j]; }
    }
  }

  lemma CellsFromReadsSwap(s: AioState, s': AioState, rds: seq<Setup>, cell: nat, a: Iocb)
    requires Shaped(s) && Shaped(s') && CellsFromReads(s, rds)
    requires cell < QUEUE_SIZE && s.stages[cell] != Free
    requires a == IoWriteSetup(s.dstFd, s.iocbs[cell].offset, s.iocbs[cell].buf, a.nbytes)
    requires s'.srcFd == s.srcFd && s'.dstFd == s.dstFd && s'.srcOff == s.srcOff
    requires s'.iocbs == s.iocbs[cell := a] && s'.stages == s.stages[cell := Queued]
    ensures CellsFromReads(s', rds)
  {
  }

  lemma ReadsAccountedSwap(s: AioState, s': AioState, rds: seq<Setup>, written: seq<int>, lost: seq<int>,
                           cell: nat, a: Iocb)
    requires Shaped(s) && Shaped(s') && ReadsAccounted(s, rds, written, lost)
    requires cell < QUEUE_SIZE && a.offset == s.iocbs[cell].offset
    requires s'.iocbs == s.iocbs[cell := a] && s'.stages == s.stages[cell := Queued]
    ensures ReadsAccounted(s', rds, written, lost)
  {
  }

  /** A read that returned bytes becomes a write of that many bytes, at the same offset,
      from the same slice; the invariant is kept. */
  lemma ReadToWriteInv(t: Trace, ev: Event)
    requires Inv(t) && ev.cell < QUEUE_SIZE && t.state.stages[ev.cell] == InFlight
    requires t.state.iocbs[ev.cell].opcode == PRead && ev.res != 0
    ensures Inv(HandleEvent(t, ev))
  {
    var s := t.state;
    var c := ev.cell;
    var a := s.iocbs[c];
    var x := Setup(c, IoWriteSetup(s.dstFd, a.offset, a.buf, ToSizeT(ev.res)));
    var s' := s.(iocbs := s.iocbs[c := x.iocb], submitList := s.submitList + [c], stages := s.stages[c := Queued]);
    assert s.stages[c := Free][c := Queued] == s'.stages;
    assert HandleEvent(t, ev) == t.(state := s', log := t.log + [x]);
    OfOpAppend(t.log, x, PRead);
    OfOpAppend(t.log, x, PWrite);
    CountersSwap(s, s', c);
    CellsFromReadsSwap(s, s', OfOp(t.log, PRead), c, x.iocb);
    WritesFromReadsWrite(s, OfOp(t.log, PRead), OfOp(t.log, PWrite), x);
    ReadsAccountedSwap(s, s', OfOp(t.log, PRead), t.written, t.lost, c, x.iocb);
  }

  /** What handling one event keeps: the invariant, a `num_io_reqs` that does not grow, at
      most one more queued request, a cursor that does not move back, coverage, and with a
      non-zero result every control block active while data remains and no block lost. */
  predicate EventKeeps(t: Trace, ev: Event, r: Trace)
    requires Shaped(t.state) && Shaped(r.state)
  {
    && Inv(r)
    && r.state.numIoReqs <= t.state.numIoReqs
    && |r.state.submitList| <= |t.state.submitList| + 1
    && t.state.srcOff <= r.state.srcOff
    && (ev.res != 0 && Saturated(t.state) ==> Saturated(r.state))
    && (ev.res != 0 ==> r.lost == t.lost)
    && (Covering(t) ==> Covering(r))
  }

  lemma ReadEventInv(t: Trace, ev: Event)
    requires Inv(t) && ev.cell < QUEUE_SIZE && t.state.stages[ev.cell] == InFlight
    requires t.state.iocbs[ev.cell].opcode == PRead
    ensures EventKeeps(t, ev, HandleEvent(t, ev))
  {
    if ev.res != 0 {
      ReadToWriteInv(t, ev);
    } else {
      assert HandleEvent(t, ev) == Retire(t, ev.cell, false);
      RetireInv(t, ev.cell, false);
      LoseCovering(t, ev.cell);
    }
  }

  /** A finished write while data remains: the cell goes straight on to the next read. */
  lemma WriteReadEventInv(t: Trace, ev: Event)
    requires Inv(t) && ev.cell < QUEUE_SIZE && t.state.stages[ev.cell] == InFlight
    requires t.state.iocbs[ev.cell].opcode == PWrite && ev.res != 0 && t.state.srcOff < t.state.srcSize
    ensures EventKeeps(t, ev, HandleEvent(t, ev))
  {
    var c := ev.cell;
    WriteThenReadIsRetireThenRead(t, ev);
    RetireInv(t, c, true);
    var m := Retire(t, c, true);
    ReadNextInv(m, c);
    CountPositive(t.state.stages, InFlight, c);
    assert t.state.iocbs[c].buf == Slice(c);
  }

  /** A finished write at the end of the file, or a write reported with 0 bytes: the cell
      retires, its block written in the first case and lost in the second. */
  lemma WriteDoneEventInv(t: Trace, ev: Event)
    requires Inv(t) && ev.cell < QUEUE_SIZE && t.state.stages[ev.cell] == InFlight
    requires t.state.iocbs[ev.cell].opcode != PRead && !(ev.res != 0 && t.state.srcOff < t.state.srcSize)
    ensures EventKeeps(t, ev, HandleEvent(t, ev))
  {
    assert HandleEvent(t, ev) == Retire(t, ev.cell, ev.res != 0);
    RetireInv(t, ev.cell, ev.res != 0);
    if ev.res == 0 {
      LoseCovering(t, ev.cell);
    }
  }

  /** Every event keeps the invariant and coverage and never raises `num_io_reqs`; with a
      non-zero result it also keeps every control block active while data remains. */
  lemma HandleEventInv(t: Trace, ev: Event)
    requires Inv(t) && ev.cell < QUEUE_SIZE
    ensures var r := HandleEvent(t, ev);
      && Inv(r)
      && r.state.numIoReqs <= t.state.numIoReqs
      && |r.state.submitList| <= |t.state.submitList| + 1
      && t.state.srcOff <= r.state.srcOff
      && (ev.res != 0 && Saturated(t.state) ==> Saturated(r.state))
      && (ev.res != 0 ==> r.lost == t.lost)
      && (Covering(t) ==> Covering(r))
  {
    if t.state.stages[ev.cell] != InFlight {
    } else if t.state.iocbs[ev.cell].opcode == PRead {
      ReadEventInv(t, ev);
    } else if ev.res != 0 && t.state.srcOff < t.state.srcSize {
      WriteReadEventInv(t, ev);
    } else {
      WriteDoneEventInv(t, ev);
    }
  }

  lemma {:induction false} HandleEventsInv(t: Trace, evs: seq<Event>)
    requires Inv(t) && forall j :: 0 <= j < |evs| ==> evs[j].cell < QUEUE_SIZE
    ensures var r := HandleEvents(t, evs);
      && Inv(r)
      && r.state.numIoReqs <= t.state.numIoReqs
      && |r.state.submitList| <= |t.state.submitList| + |evs|
      && t.state.srcOff <= r.state.srcOff
      && ((forall j :: 0 <= j < |evs| ==> evs[j].res != 0) && Saturated(t.state) ==>
            Saturated(r.state) && r.lost == t.lost)
      && (Covering(t) ==> Covering(r))
    decreases |evs|
  {
    if evs != [] {
      HandleEventInv(t, evs[0]);
      HandleEventsInv(HandleEvent(t, evs[0]), evs[1..]);
    }
  }

  lemma {:induction false} PromoteCounts(xs: seq<CellStage>)
    ensures Count(Promote(xs), Queued) == 0
    ensures Count(Promote(xs), InFlight) == Count(xs, Queued) + Count(xs, InFlight)
  {
    if xs != [] {
      PromoteCounts(xs[1..]);
      assert Promote(xs)[1..] == Promote(xs[1..]);
    }
  }

  /** `io_submit` followed by resetting the submit list keeps the invariant: every queued
      control block is now in flight and `num_io_reqs` still counts the active ones. */
  lemma SubmitInv(t: Trace)
    requires Inv(t)
    ensures var r := t.(state := Submit(t.state).(submitList := []));
      && Inv(r) && r.state.numIoReqs == t.state.numIoReqs
      && (Saturated(t.state) ==> Saturated(r.state))
      && (Covering(t) ==> Covering(r))
  {
    PromoteCounts(t.state.stages);
  }

  /** The k-th event round: `num_to_submit` afterwards is at most the number of events,
      so the submit list never overflows. */
  lemma DoRoundInv(t: Trace, r: Round)
    requires Inv(t) && (r.Events? ==> EventsFit(r.evs))
    ensures var o := DoRound(t, r);
      && (o.Running? ==> && Inv(o.trace) && o.trace.state.numIoReqs <= t.state.numIoReqs
                         && |o.trace.state.submitList| <= |r.evs| <= QUEUE_SIZE
                         && t.state.srcOff <= o.trace.state.srcOff)
      && (o.Running? && Saturated(t.state) && (forall j :: 0 <= j < |r.evs| ==> r.evs[j].res != 0) ==>
            Saturated(o.trace.state) && o.trace.lost == t.lost)
      && (o.Running? && Covering(t) ==> Covering(o.trace))
  {
    if r.Events? {
      SubmitInv(t);
      HandleEventsInv(t.(state := Submit(t.state).(submitList := [])), r.evs);
    }
  }

  /** No event in any round reports 0 bytes. */
  predicate NoZeroResults(rounds: seq<Round>)
  {
    forall i :: 0 <= i < |rounds| && rounds[i].Events? ==>
      forall j :: 0 <= j < |rounds[i].evs| ==> rounds[i].evs[j].res != 0
  }

  lemma RoundsTail(rounds: seq<Round>)
    requires RoundsFit(rounds) && rounds != []
    ensures RoundsFit(rounds[1..])
    ensures NoZeroResults(rounds) ==> NoZeroResults(rounds[1..])
    ensures NoZeroResults(rounds) && rounds[0].Events? ==>
              forall j :: 0 <= j < |rounds[0].evs| ==> rounds[0].evs[j].res != 0
  {
    forall i | 0 <= i < |rounds| - 1
      ensures rounds[1..][i] == rounds[i + 1]
    {
    }
  }

  lemma {:induction false} LoopInv(t: Trace, rounds: seq<Round>)
    requires Inv(t) && RoundsFit(rounds)
    ensures var o := Loop(t, rounds);
      && (o.Running? || o.Completed? ==> Inv(o.trace) && o.trace.state.srcSize == t.state.srcSize)
      && (o.Completed? ==> o.trace.state.numIoReqs == 0)
      && (NoZeroResults(rounds) && Saturated(t.state) && o.Completed? ==>
            Saturated(o.trace.state) && o.trace.lost == t.lost)
      && (Covering(t) && o.Completed? ==> Covering(o.trace))
    decreases |rounds|
  {
    if t.state.numIoReqs != 0 && rounds != [] {
      RoundsTail(rounds);
      DoRoundInv(t, rounds[0]);
      var o := DoRound(t, rounds[0]);
      if o.Running? {
        assert Loop(t, rounds) == Loop(o.trace, rounds[1..]);
        LoopInv(o.trace, rounds[1..]);
      }
    }
  }

  // ---------------------------------------------------------------------------
  // Priming, and what a completed copy has done
  // ---------------------------------------------------------------------------

  /** After priming cells `0 .. i)`: exactly those are queued, each with a full-block
      read at its own block into its own slice; the cursor is at block `i`; nothing has
      been reported. */
  predicate PrimedUpTo(t: Trace, i: nat)
  {
    Inv(t) && PrimedShape(t, i)
  }

  /** The first `i` cells hold the first `i` blocks' reads, and nothing else has happened. */
  predicate PrimedShape(t: Trace, i: nat)
  {
    && Shaped(t.state) && i <= QUEUE_SIZE
    && t.state.srcOff == i * READ_BLOCK_SIZE && t.state.numIoReqs == i
    && (forall c :: 0 <= c < QUEUE_SIZE ==> t.state.stages[c] == if c < i then Queued else Free)
    && (forall c :: 0 <= c < i ==>
          t.state.iocbs[c] == IoReadSetup(t.state.srcFd, c * READ_BLOCK_SIZE, Slice(c), READ_BLOCK_SIZE))
    && t.lost == [] && t.written == []
  }

  lemma PrimeCellStep(t: Trace, i: nat)
    requires PrimedUpTo(t, i) && i < QUEUE_SIZE && t.state.srcOff < t.state.srcSize
    ensures PrimedUpTo(PrimeCell(t, i), i + 1)
  {
    assert PrimeCell(t, i) == ReadNext(t, i, Slice(i));
    ReadNextInv(t, i);
    PrimedShapeStep(t, i);
  }

  lemma PrimedShapeStep(t: Trace, i: nat)
    requires PrimedShape(t, i) && i < QUEUE_SIZE
    ensures PrimedShape(PrimeCell(t, i), i + 1)
  {
  }

  /** The priming loop leaves `n = min(QUEUE_SIZE, size / READ_BLOCK_SIZE)` reads queued,
      cell `c` reading block `c` into slice `c` for every `c < n`, and every cell busy
      while data remains. */
  lemma {:induction false} PrimeFromInv(t: Trace, i: nat)
    requires PrimedUpTo(t, i)
    ensures var r := PrimeFrom(t, i);
      && Inv(r) && Saturated(r.state) && r.lost == [] && r.written == []
      && r.state.srcSize == t.state.srcSize
      && r.state.numIoReqs == Min(QUEUE_SIZE, t.state.srcSize / READ_BLOCK_SIZE)
      && PrimedShape(r, r.state.numIoReqs)
      && |OfOp(r.log, PRead)| == r.state.numIoReqs
    decreases QUEUE_SIZE - i
  {
    if i < QUEUE_SIZE && t.state.srcOff < t.state.srcSize {
      PrimeCellStep(t, i);
      PrimeFromInv(PrimeCell(t, i), i + 1);
    } else {
      assert (i * READ_BLOCK_SIZE) / READ_BLOCK_SIZE == i;
      if i < QUEUE_SIZE {
        assert t.state.srcOff == t.state.srcSize;
      } else {
        DivAtLeast(QUEUE_SIZE, t.state.srcSize, READ_BLOCK_SIZE);
      }
    }
  }

  /** What `PrimeFrom(Start(...), 0)` begins from satisfies `PrimedUpTo`. */
  lemma StartPrimed(srcFd: int, dstFd: int, srcSize: nat)
    requires srcSize % READ_BLOCK_SIZE == 0
    ensures PrimedUpTo(Start(srcFd, dstFd, srcSize), 0)
  {
    StartInv(srcFd, dstFd, srcSize);
  }

  /** When `num_io_reqs` reaches 0 every control block is retired and every block read
      has been written or seen empty; if every cell stayed busy while data remained, the
      reads reached the end of the rounded file. */
  lemma Finished(t: Trace)
    requires Inv(t) && t.state.numIoReqs == 0
    ensures forall c :: 0 <= c < QUEUE_SIZE ==> t.state.stages[c] == Free
    ensures var rds := OfOp(t.log, PRead);
      forall k :: 0 <= k < |rds| ==> k * READ_BLOCK_SIZE in t.written || k * READ_BLOCK_SIZE in t.lost
    ensures Saturated(t.state) ==> |OfOp(t.log, PRead)| * READ_BLOCK_SIZE == t.state.srcSize
  {
    var s := t.state;
    forall c | 0 <= c < QUEUE_SIZE
      ensures s.stages[c] == Free
    {
      CountZero(s.stages, Queued, c);
      CountZero(s.stages, InFlight, c);
    }
  }

  /** The main loop from a primed state: a run that completes has retired every control
      block, has read the blocks at `0, B, 2B, ...` in order, each a full block, and has
      written or seen empty every block it read; without zero results nothing is lost,
      and unless a block before the last was reported with 0 bytes, it has read every
      block below the rounded size, written each of them or lost it, and lost at most the
      last one. */
  lemma LoopCorrect(p: Trace, rounds: seq<Round>)
    requires Inv(p) && Saturated(p.state) && p.lost == [] && RoundsFit(rounds)
    ensures var o := Loop(p, rounds);
      o.Completed? ==>
        var rds := OfOp(o.trace.log, PRead);
        && (forall c :: 0 <= c < QUEUE_SIZE ==> o.trace.state.stages[c] == Free)
        && (forall k :: 0 <= k < |rds| ==>
              rds[k].iocb == IoReadSetup(p.state.srcFd, k * READ_BLOCK_SIZE, Slice(rds[k].cell), READ_BLOCK_SIZE))
        && (forall k :: 0 <= k < |rds| ==> k * READ_BLOCK_SIZE in o.trace.written || k * READ_BLOCK_SIZE in o.trace.lost)
        && (NoZeroResults(rounds) ==> o.trace.lost == [])
        && ((forall x :: x in o.trace.lost ==> x + READ_BLOCK_SIZE >= p.state.srcSize) ==>
              && |rds| * READ_BLOCK_SIZE == p.state.srcSize
              && (forall k :: 0 <= k < p.state.srcSize / READ_BLOCK_SIZE ==>
                    k * READ_BLOCK_SIZE in o.trace.written || k * READ_BLOCK_SIZE in o.trace.lost)
              && forall x :: x in o.trace.lost ==> x + READ_BLOCK_SIZE == p.state.srcSize)
  {
    LoopInv(p, rounds);
    var o := Loop(p, rounds);
    if o.Completed? {
      Finished(o.trace);
      if forall x :: x in o.trace.lost ==> x + READ_BLOCK_SIZE >= p.state.srcSize {
        var n := |OfOp(o.trace.log, PRead)|;
        assert (n * READ_BLOCK_SIZE) / READ_BLOCK_SIZE == n;
        LastLost(o.trace);
      }
    }
  }

  /** Once the cursor is at the end, a lost block not before the last is the last. */
  lemma LastLost(t: Trace)
    requires Inv(t) && t.state.srcOff == t.state.srcSize
    ensures forall x :: x in t.lost && x + READ_BLOCK_SIZE >= t.state.srcSize ==> x + READ_BLOCK_SIZE == t.state.srcSize
  {
    var s := t.state;
    forall x | x in t.lost && x + READ_BLOCK_SIZE >= s.srcSize
      ensures x + READ_BLOCK_SIZE == s.srcSize
    {
      var j :| 0 <= j < |t.lost| && t.lost[j] == x;
      assert (s.srcSize - x) % READ_BLOCK_SIZE == 0;
    }
  }

  /** The whole copy once the size is rounded: as `LoopCorrect`, from the primed state. */
  lemma CopyRoundedCorrect(srcFd: int, dstFd: int, rounded: nat, rounds: seq<Round>)
    requires rounded % READ_BLOCK_SIZE == 0 && RoundsFit(rounds)
    ensures var o := CopyRounded(srcFd, dstFd, rounded, rounds);
      o.Completed? ==>
        var rds := OfOp(o.trace.log, PRead);
        && (forall c :: 0 <= c < QUEUE_SIZE ==> o.trace.state.stages[c] == Free)
        && (forall k :: 0 <= k < |rds| ==>
              rds[k].iocb == IoReadSetup(srcFd, k * READ_BLOCK_SIZE, Slice(rds[k].cell), READ_BLOCK_SIZE))
        && (forall k :: 0 <= k < |rds| ==> k * READ_BLOCK_SIZE in o.trace.written || k * READ_BLOCK_SIZE in o.trace.lost)
        && (NoZeroResults(rounds) ==> o.trace.lost == [])
        && ((forall x :: x in o.trace.lost ==> x + READ_BLOCK_SIZE >= rounded) ==>
              && |rds| * READ_BLOCK_SIZE == rounded
              && (forall k :: 0 <= k < rounded / READ_BLOCK_SIZE ==>
                    k * READ_BLOCK_SIZE in o.trace.written || k * READ_BLOCK_SIZE in o.trace.lost)
              && forall x :: x in o.trace.lost ==> x + READ_BLOCK_SIZE == rounded)
  {
    var t0 := Start(srcFd, dstFd, rounded);
    StartPrimed(srcFd, dstFd, rounded);
    PrimeFromInv(t0, 0);
    LoopCorrect(PrimeFrom(t0, 0), rounds);
  }

  /** The copy with the rounding done without wrap-around.  A completed copy has retired
      every control block, and without zero results has lost nothing.  When no block
      below the file size was reported with 0 bytes, as when the only empty answer is the
      read at the end of the file, it has written every block of the file, the last one
      included, and the only lost block is the one at the file size. */
  lemma CopyFileCorrect(srcSize: u32, srcFd: int, dstFd: int, rounds: seq<Round>)
    requires RoundsFit(rounds)
    ensures var o := CopyFile(srcSize, srcFd, dstFd, rounds);
      o.Completed? ==>
        && (forall c :: 0 <= c < QUEUE_SIZE ==> o.trace.state.stages[c] == Free)
        && (NoZeroResults(rounds) ==> o.trace.lost == [])
        && ((forall x :: x in o.trace.lost ==> x >= srcSize) ==>
              && (forall off :: 0 <= off < srcSize && off % READ_BLOCK_SIZE == 0 ==> off in o.trace.written)
              && forall x :: x in o.trace.lost ==> x == srcSize)
  {
    var rounded := RoundUp(srcSize, READ_BLOCK_SIZE);
    CopyRoundedCorrect(srcFd, dstFd, rounded, rounds);
    var o := CopyFile(srcSize, srcFd, dstFd, rounds);
    if o.Completed? && forall x :: x in o.trace.lost ==> x >= srcSize {
      CoverBelowSize(srcSize, READ_BLOCK_SIZE, o.trace.written, o.trace.lost);
    }
  }

  /** As written, a file of at least 2^32 - READ_BLOCK_SIZE bytes rounds to 0: the copy
      submits nothing and completes at once without copying a byte, whatever the kernel
      would answer. */
  lemma AsWrittenCopiesNothing(srcSize: u32, srcFd: int, dstFd: int, rounds: seq<Round>)
    requires U32 - READ_BLOCK_SIZE <= srcSize && RoundsFit(rounds)
    ensures CopyFileAsWritten(srcSize, srcFd, dstFd, rounds) == Completed(Start(srcFd, dstFd, 0))
    ensures RoundUp(srcSize, READ_BLOCK_SIZE) == U32
  {
    RoundUp32Wraps(srcSize, READ_BLOCK_SIZE);
  }

  // ---------------------------------------------------------------------------
  // Progress
  // ---------------------------------------------------------------------------

  /** What a cell still costs: a pending read two events, a pending write one. */
  function Weight(s: AioState, c: nat): nat
    requires Shaped(s) && c < QUEUE_SIZE
  {
    if s.stages[c] == Free then 0 else if s.iocbs[c].opcode == PRead then 2 else 1
  }

  function Weights(s: AioState): (w: seq<nat>)
    requires Shaped(s)
    ensures |w| == QUEUE_SIZE
  {
    seq(QUEUE_SIZE, c requires 0 <= c < QUEUE_SIZE => Weight(s, c))
  }

  /** Every block still to read costs three events (its read, its write, and the write's
      re-arm), on top of what the active cells still cost. */
  function Measure(s: AioState): nat
    requires Counters(s)
  {
    3 * ((s.srcSize - s.srcOff) / READ_BLOCK_SIZE) + Sum(Weights(s))
  }

  lemma WeightsUpdate(s: AioState, s': AioState, cell: nat)
    requires Shaped(s) && Shaped(s') && cell < QUEUE_SIZE
    requires forall c :: 0 <= c < QUEUE_SIZE && c != cell ==> s'.stages[c] == s.stages[c] && s'.iocbs[c] == s.iocbs[c]
    ensures Sum(Weights(s')) == Sum(Weights(s)) - Weight(s, cell) + Weight(s', cell)
  {
    assert Weights(s') == Weights(s)[cell := Weight(s', cell)];
    SumUpdate(Weights(s), cell, Weight(s', cell));
  }

  lemma MeasureStep(s: AioState, s': AioState, cell: nat)
    requires Counters(s) && Counters(s') && cell < QUEUE_SIZE && s'.srcSize == s.srcSize
    requires forall c :: 0 <= c < QUEUE_SIZE && c != cell ==> s'.stages[c] == s.stages[c] && s'.iocbs[c] == s.iocbs[c]
    requires || (s'.srcOff == s.srcOff && Weight(s', cell) < Weight(s, cell))
             || (s'.srcOff == s.srcOff + READ_BLOCK_SIZE && Weight(s', cell) <= Weight(s, cell) + 2)
    ensures Measure(s') < Measure(s)
  {
    WeightsUpdate(s, s', cell);
    if s'.srcOff != s.srcOff {
      var d := s.srcSize - s.srcOff;
      assert d % READ_BLOCK_SIZE == 0 && d >= READ_BLOCK_SIZE;
      assert (d - READ_BLOCK_SIZE) / READ_BLOCK_SIZE == d / READ_BLOCK_SIZE - 1;
    }
  }

  /** An event for an in-flight control block lowers the measure; any other event
      changes nothing at all. */
  lemma EventProgress(t: Trace, ev: Event)
    requires Inv(t) && ev.cell < QUEUE_SIZE
    ensures var r := HandleEvent(t, ev);
      && Inv(r)
      && (t.state.stages[ev.cell] != InFlight ==> r == t)
      && (t.state.stages[ev.cell] == InFlight ==> Measure(r.state) < Measure(t.state))
  {
    HandleEventInv(t, ev);
    if t.state.stages[ev.cell] == InFlight {
      EventMeasure(t, ev);
    }
  }

  /** The measure argument of `EventProgress`, on the counters alone. */
  lemma EventMeasure(t: Trace, ev: Event)
    requires ev.cell < QUEUE_SIZE && Counters(t.state) && t.state.stages[ev.cell] == InFlight
    requires Counters(HandleEvent(t, ev).state)
    ensures Measure(HandleEvent(t, ev).state) < Measure(t.state)
  {
    var s, s', c := t.state, HandleEvent(t, ev).state, ev.cell;
    assert forall d :: 0 <= d < QUEUE_SIZE && d != c ==> s'.stages[d] == s.stages[d] && s'.iocbs[d] == s.iocbs[d];
    if s.iocbs[c].opcode == PRead {
      assert s'.srcOff == s.srcOff && Weight(s', c) < 2 == Weight(s, c);
    } else if ev.res != 0 && s.srcOff < s.srcSize {
      assert s'.srcOff == s.srcOff + READ_BLOCK_SIZE && Weight(s', c) == 2;
    } else {
      assert s'.srcOff == s.srcOff && Weight(s', c) == 0 < Weight(s, c);
    }
    MeasureStep(s, s', c);
  }

  lemma SubmitKeepsMeasure(t: Trace)
    requires Inv(t)
    ensures Counters(t.state.(stages := Promote(t.state.stages), submitList := []))
    ensures Measure(t.state.(stages := Promote(t.state.stages), submitList := [])) == Measure(t.state)
  {
    SubmitInv(t);
    var s' := t.state.(stages := Promote(t.state.stages), submitList := []);
    assert Weights(s') == Weights(t.state);
  }
}
