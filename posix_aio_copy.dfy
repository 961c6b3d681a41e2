/** The POSIX AIO copy: the source size is rounded up to whole blocks, up to QUEUE_SIZE
    control blocks are primed with reads at consecutive block offsets and entered in the
    wait list, and then each round waits and scans the wait list in cell order: a cell
    that is not listed or whose request is still in progress is skipped; a finished read
    that returned bytes becomes a write of that many bytes at the same offset from the
    cell's slice, a finished write becomes the next read while data remains, and a zero
    result takes the cell out of the wait list for good.  Results are not checked for
    errors; a request the library rejects ends the copy.  Library answers are inputs. */
module PosixAioCopy {
  import opened Uint
  import opened Counting
  import opened BlockMath

  const READ_BLOCK_SIZE: nat := 512
  const QUEUE_SIZE: nat := 16

  /** Which request a control block was last set up for. */
  datatype Kind = Read | Write

  /** The fields of struct aiocb that the copy sets; the memset in the setup helpers
      leaves every other field zero. */
  datatype Aiocb = Aiocb(fildes: int, kind: Kind, buf: nat, nbytes: u64, offset: int)

  /** The control block `aio_read_setup` fills in before calling `aio_read`. */
  function AioReadSetup(fd: int, offset: int, buf: nat, size: u64): (r: Aiocb)
    ensures r.kind == Read
    ensures r.fildes == fd && r.offset == offset && r.buf == buf && r.nbytes == size
  {
    Aiocb(fd, Read, buf, size, offset)
  }

  /** The control block `aio_write_setup` fills in before calling `aio_write`. */
  function AioWriteSetup(fd: int, offset: int, buf: nat, size: u64): (r: Aiocb)
    ensures r.kind == Write
    ensures r.fildes == fd && r.offset == offset && r.buf == buf && r.nbytes == size
  {
    Aiocb(fd, Write, buf, size, offset)
  }

  /** The copy's variables; `waitList[i]` says whether `wait_list[i]` is non-NULL (it can
      only ever point to `aiocbs[i]`). */
  datatype PosixState = PosixState(
    srcFd: int, dstFd: int, srcSize: nat, srcOff: nat, numIoReqs: u64,
    aiocbs: seq<Aiocb>, waitList: seq<bool>)

  /** A request the library accepted, for a cell. */
  datatype Setup = Setup(cell: nat, aiocb: Aiocb)

  /** The state, every request accepted so far in order, the offsets of the blocks whose
      write finished with a non-zero result and of the blocks whose read or write finished
      with 0 bytes. */
  datatype Trace = Trace(state: PosixState, log: seq<Setup>, written: seq<int>, lost: seq<int>)

  /** What `aio_error` says about a listed cell during a scan: still in progress, or
      finished with the value `aio_return` gives, together with whether the library
      accepts the request the copy then issues on that cell. */
  datatype Poll = Pending | Done(ret: int, accepted: bool)

  /** The answer does not make the copy issue a request the library rejects. */
  predicate Accepting(p: Poll)
  {
    p.Done? ==> p.accepted
  }

  /** One round: `aio_suspend` fails, or it returns and the scan sees one answer per cell. */
  datatype Round = SuspendFailed | Scan(polls: seq<Poll>)

  datatype Failure = RequestRejected | SuspendError

  /** `Running`: the loop is still going when the rounds given run out. */
  datatype Outcome =
    | Running(trace: Trace)
    | Aborted(failure: Failure, trace: Trace)
    | Completed(trace: Trace)

  /** The block-sized slice of the buffer that cell `i` uses, as an offset. */
  function Slice(i: nat): nat
  {
    i * READ_BLOCK_SIZE
  }

  function Min(a: int, b: int): int
  {
    if a < b then a else b
  }

  // ---------------------------------------------------------------------------
  // The operations
  // ---------------------------------------------------------------------------

  predicate Shaped(s: PosixState)
  {
    |s.aiocbs| == |s.waitList| == QUEUE_SIZE
  }

  /** The state before priming: zeroed control blocks, an empty wait list. */
  function Start(srcFd: int, dstFd: int, srcSize: nat): (t: Trace)
    ensures Shaped(t.state)
  {
    Trace(PosixState(srcFd, dstFd, srcSize, 0, 0, seq(QUEUE_SIZE, _ => AioReadSetup(0, 0, 0, 0)),
                     seq(QUEUE_SIZE, _ => false)), [], [], [])
  }

  /** The request `a` in `cell`, once the library has accepted it. */
  function Armed(t: Trace, cell: nat, a: Aiocb): (r: Trace)
    requires Shaped(t.state) && cell < QUEUE_SIZE
    ensures Shaped(r.state)
  {
    t.(state := t.state.(aiocbs := t.state.aiocbs[cell := a]), log := t.log + [Setup(cell, a)])
  }

  /** A setup helper: fill in `cell` with `a` and issue it; a rejected request ends the copy. */
  function Issue(t: Trace, cell: nat, a: Aiocb, accepted: bool): (o: Outcome)
    requires Shaped(t.state) && cell < QUEUE_SIZE
    ensures !o.Completed? && Shaped(o.trace.state)
    ensures o.trace.state.aiocbs == t.state.aiocbs[cell := a]
    ensures o.trace.state.(aiocbs := t.state.aiocbs) == t.state
    ensures o.Running? <==> accepted
    ensures o.Aborted? ==> o.failure == RequestRejected
  {
    if accepted then Running(Armed(t, cell, a))
    else Aborted(RequestRejected, t.(state := t.state.(aiocbs := t.state.aiocbs[cell := a])))
  }

  /** The priming loop from cell `i` on, `accepts[i]` telling whether `aio_read` takes cell
      `i`'s request: it stops at QUEUE_SIZE cells or at the end of the rounded file. */
  function PrimeFrom(t: Trace, i: nat, accepts: seq<bool>): (o: Outcome)
    requires Shaped(t.state) && i <= QUEUE_SIZE && |accepts| == QUEUE_SIZE
    ensures !o.Completed? && Shaped(o.trace.state)
    ensures o.Aborted? ==> o.failure == RequestRejected
    ensures o.trace.state.srcSize == t.state.srcSize && o.trace.state.srcFd == t.state.srcFd
    ensures o.trace.written == t.written && o.trace.lost == t.lost
    ensures (forall j :: i <= j < QUEUE_SIZE ==> accepts[j]) ==> o.Running?
    decreases QUEUE_SIZE - i
  {
    var s := t.state;
    if i < QUEUE_SIZE && s.srcOff < s.srcSize then
      var o := Issue(t, i, AioReadSetup(s.srcFd, s.srcOff, Slice(i), READ_BLOCK_SIZE), accepts[i]);
      if o.Running? then
        var q := o.trace.state;
        PrimeFrom(o.trace.(state := q.(waitList := q.waitList[i := true], srcOff := s.srcOff + READ_BLOCK_SIZE,
                                       numIoReqs := ToSizeT(s.numIoReqs + 1))), i + 1, accepts)
      else o
    else Running(t)
  }

  /** Priming only appends to the log, one request per block, and stops short of
      QUEUE_SIZE cells only at the end of the rounded file or at a rejected request. */
  lemma {:induction false} PrimeFromAdvances(t: Trace, i: nat, accepts: seq<bool>)
    requires Shaped(t.state) && i <= QUEUE_SIZE && |accepts| == QUEUE_SIZE
    ensures var o := PrimeFrom(t, i, accepts);
      && |t.log| <= |o.trace.log| <= |t.log| + (QUEUE_SIZE - i) && o.trace.log[..|t.log|] == t.log
      && (o.Running? ==> o.trace.state.srcOff == t.state.srcOff + (|o.trace.log| - |t.log|) * READ_BLOCK_SIZE)
      && (o.Running? && |o.trace.log| < |t.log| + (QUEUE_SIZE - i) ==> o.trace.state.srcOff >= o.trace.state.srcSize)
    decreases QUEUE_SIZE - i
  {
    var s := t.state;
    if i < QUEUE_SIZE && s.srcOff < s.srcSize {
      var o := Issue(t, i, AioReadSetup(s.srcFd, s.srcOff, Slice(i), READ_BLOCK_SIZE), accepts[i]);
      if o.Running? {
        var q := o.trace.state;
        var t' := o.trace.(state := q.(waitList := q.waitList[i := true], srcOff := s.srcOff + READ_BLOCK_SIZE,
                                       numIoReqs := ToSizeT(s.numIoReqs + 1)));
        assert t'.log == t.log + [Setup(i, AioReadSetup(s.srcFd, s.srcOff, Slice(i), READ_BLOCK_SIZE))];
        PrimeFromAdvances(t', i + 1, accepts);
        var o' := PrimeFrom(t', i + 1, accepts);
        assert o' == PrimeFrom(t, i, accepts);
        assert o'.trace.log[..|t.log|] == t'.log[..|t.log|] by {
          assert o'.trace.log[..|t'.log|] == t'.log;
        }
        assert (|o'.trace.log| - |t'.log|) * READ_BLOCK_SIZE + READ_BLOCK_SIZE == (|o'.trace.log| - |t.log|) * READ_BLOCK_SIZE;
      }
    }
  }

  /** One step of the scan, on cell `i` with the library's answer `p`. */
  function ScanCell(t: Trace, i: nat, p: Poll): (o: Outcome)
    requires Shaped(t.state) && i < QUEUE_SIZE
    ensures !o.Completed? && Shaped(o.trace.state)
    ensures o.Aborted? ==> o.failure == RequestRejected
    ensures o.trace.state.srcSize == t.state.srcSize && o.trace.state.srcFd == t.state.srcFd
    ensures !t.state.waitList[i] || p.Pending? ==> o == Running(t)
    ensures Accepting(p) ==> o.Running?
    ensures t.state.waitList[i] && p.Done? && p.ret == 0 ==>
      && o.Running? && !o.trace.state.waitList[i]
      && o.trace.state.numIoReqs == ToSizeT(t.state.numIoReqs - 1)
      && o.trace.lost == t.lost + [t.state.aiocbs[i].offset]
    ensures o.trace.state.srcOff == t.state.srcOff || o.trace.state.srcOff == t.state.srcOff + READ_BLOCK_SIZE
    ensures var a := t.state.aiocbs[i];
      t.state.waitList[i] && p.Done? && a.kind == Read && p.ret != 0 ==>
        && (o.Running? <==> p.accepted)
        && o.trace.state.aiocbs[i] == AioWriteSetup(t.state.dstFd, a.offset, Slice(i), ToSizeT(p.ret))
        && o.trace.state.waitList == t.state.waitList
        && o.trace.state.numIoReqs == t.state.numIoReqs && o.trace.state.srcOff == t.state.srcOff
    ensures t.state.waitList[i] && p.Done? && t.state.aiocbs[i].kind == Write && p.ret != 0
            && t.state.srcOff >= t.state.srcSize ==>
      o == Running(Retire(t, i, true))
  {
    var s := t.state;
    if !s.waitList[i] || p.Pending? then Running(t)
    else
      var a := s.aiocbs[i];
      if a.kind == Read then
        if p.ret != 0 then Issue(t, i, AioWriteSetup(s.dstFd, a.offset, Slice(i), ToSizeT(p.ret)), p.accepted)
        else Running(t.(state := s.(waitList := s.waitList[i := false], numIoReqs := ToSizeT(s.numIoReqs - 1)),
                        lost := t.lost + [a.offset]))
      else if p.ret != 0 && s.srcOff < s.srcSize then
        var o := Issue(t.(written := t.written + [a.offset]), i, AioReadSetup(s.srcFd, s.srcOff, Slice(i), READ_BLOCK_SIZE), p.accepted);
        if o.Running? then Running(o.trace.(state := o.trace.state.(srcOff := s.srcOff + READ_BLOCK_SIZE)))
        else o
      else
        var t2 := t.(state := s.(waitList := s.waitList[i := false], numIoReqs := ToSizeT(s.numIoReqs - 1)));
        Running(if p.ret != 0 then t2.(written := t.written + [a.offset]) else t2.(lost := t.lost + [a.offset]))
  }

  /** The scan loop from cell `i` on. */
  function ScanFrom(t: Trace, polls: seq<Poll>, i: nat): (o: Outcome)
    requires Shaped(t.state) && |polls| == QUEUE_SIZE && i <= QUEUE_SIZE
    ensures !o.Completed? && Shaped(o.trace.state)
    ensures o.Aborted? ==> o.failure == RequestRejected
    ensures o.trace.state.srcSize == t.state.srcSize && o.trace.state.srcFd == t.state.srcFd
    ensures (forall j :: i <= j < QUEUE_SIZE ==> Accepting(polls[j])) ==> o.Running?
    decreases QUEUE_SIZE - i
  {
    if i == QUEUE_SIZE then Running(t)
    else
      var o := ScanCell(t, i, polls[i]);
      if o.Running? then ScanFrom(o.trace, polls, i + 1) else o
  }

  predicate RoundsFit(rounds: seq<Round>)
  {
    forall k :: 0 <= k < |rounds| ==> rounds[k].Scan? ==> |rounds[k].polls| == QUEUE_SIZE
  }

  /** `aio_suspend` never fails and the library accepts every request issued in a scan. */
  predicate NoFailures(rounds: seq<Round>)
  {
    forall k :: 0 <= k < |rounds| ==> rounds[k].Scan? && forall j :: 0 <= j < |rounds[k].polls| ==> Accepting(rounds[k].polls[j])
  }

  /** One iteration of the main loop: wait, then scan the whole wait list. */
  function DoRound(t: Trace, r: Round): (o: Outcome)
    requires Shaped(t.state) && (r.Scan? ==> |r.polls| == QUEUE_SIZE)
    ensures !o.Completed? && Shaped(o.trace.state)
    ensures o.trace.state.srcSize == t.state.srcSize && o.trace.state.srcFd == t.state.srcFd
    ensures o.Aborted? ==> o.failure == if r.SuspendFailed? then SuspendError else RequestRejected
    ensures r.Scan? && (forall j :: 0 <= j < |r.polls| ==> Accepting(r.polls[j])) ==> o.Running?
  {
    match r
    case SuspendFailed => Aborted(SuspendError, t)
    case Scan(polls) => ScanFrom(t, polls, 0)
  }

  /** `while (num_io_reqs != 0)`, one round per iteration. */
  function Loop(t: Trace, rounds: seq<Round>): (o: Outcome)
    requires Shaped(t.state) && RoundsFit(rounds)
    ensures Shaped(o.trace.state)
    ensures o.trace.state.srcSize == t.state.srcSize && o.trace.state.srcFd == t.state.srcFd
    ensures o.Completed? ==> o.trace.state.numIoReqs == 0
    ensures NoFailures(rounds) ==> !o.Aborted?
    decreases |rounds|
  {
    if t.state.numIoReqs == 0 then Completed(t)
    else if rounds == [] then Running(t)
    else
      var o := DoRound(t, rounds[0]);
      if o.Running? then Loop(o.trace, rounds[1..]) else o
  }

  /** The copy after the size has been rounded to `rounded`. */
  function CopyRounded(srcFd: int, dstFd: int, rounded: nat, accepts: seq<bool>, rounds: seq<Round>): (o: Outcome)
    requires |accepts| == QUEUE_SIZE && RoundsFit(rounds)
    ensures o.Completed? ==> o.trace.state.numIoReqs == 0
    ensures (forall j :: 0 <= j < QUEUE_SIZE ==> accepts[j]) && NoFailures(rounds) ==> !o.Aborted?
  {
    var o := PrimeFrom(Start(srcFd, dstFd, rounded), 0, accepts);
    if o.Running? then Loop(o.trace, rounds) else o
  }

  /** The copy with the rounding as written, in uint32_t. */
  function CopyFileAsWritten(srcSize: u32, srcFd: int, dstFd: int, accepts: seq<bool>, rounds: seq<Round>): (o: Outcome)
    requires |accepts| == QUEUE_SIZE && RoundsFit(rounds)
    ensures srcSize < U32 - READ_BLOCK_SIZE ==> o == CopyFile(srcSize, srcFd, dstFd, accepts, rounds)
  {
    var rounded := RoundUp32(srcSize, READ_BLOCK_SIZE);
    assert srcSize < U32 - READ_BLOCK_SIZE ==> rounded == RoundUp(srcSize, READ_BLOCK_SIZE);
    CopyRounded(srcFd, dstFd, rounded, accepts, rounds)
  }

  /** The copy with the rounding done without wrap-around. */
  function CopyFile(srcSize: u32, srcFd: int, dstFd: int, accepts: seq<bool>, rounds: seq<Round>): (o: Outcome)
    requires |accepts| == QUEUE_SIZE && RoundsFit(rounds)
    ensures o.Completed? ==> o.trace.state.numIoReqs == 0
    ensures (forall j :: 0 <= j < QUEUE_SIZE ==> accepts[j]) && NoFailures(rounds) ==> !o.Aborted?
  {
    CopyRounded(srcFd, dstFd, RoundUp(srcSize, READ_BLOCK_SIZE), accepts, rounds)
  }

  // ---------------------------------------------------------------------------
  // The invariant
  // ---------------------------------------------------------------------------

  function OfKind(log: seq<Setup>, k: Kind): (r: seq<Setup>)
  {
    if log == [] then []
    else OfKind(log[..|log| - 1], k) + (if log[|log| - 1].aiocb.kind == k then [log[|log| - 1]] else [])
  }

  lemma OfKindAppend(log: seq<Setup>, x: Setup, k: Kind)
    ensures OfKind(log + [x], k) == OfKind(log, k) + (if x.aiocb.kind == k then [x] else [])
  {
    assert (log + [x])[..|log|] == log;
  }

  /** The counters agree with the wait list. */
  predicate Counters(s: PosixState)
  {
    && Shaped(s)
    && s.srcSize % READ_BLOCK_SIZE == 0 && s.srcOff % READ_BLOCK_SIZE == 0 && s.srcOff <= s.srcSize
    && s.numIoReqs == Count(s.waitList, true)
  }

  /** The k-th read is a full block at `k * READ_BLOCK_SIZE` into its cell's slice, and
      the cursor is where the reads end. */
  predicate ReadsTile(s: PosixState, rds: seq<Setup>)
  {
    && s.srcOff == |rds| * READ_BLOCK_SIZE
    && forall k :: 0 <= k < |rds| ==>
         rds[k].cell < QUEUE_SIZE
         && rds[k].aiocb == AioReadSetup(s.srcFd, k * READ_BLOCK_SIZE, Slice(rds[k].cell), READ_BLOCK_SIZE)
  }

  /** A listed control block works on its cell's slice, on the block its own latest read
      fetched; as a read it is that read, as a write it targets the destination. */
  predicate CellsFromReads(s: PosixState, rds: seq<Setup>)
    requires Shaped(s)
  {
    forall c :: 0 <= c < QUEUE_SIZE && s.waitList[c] ==>
      var a := s.aiocbs[c];
      && a.buf == Slice(c)
      && 0 <= a.offset < s.srcOff && a.offset % READ_BLOCK_SIZE == 0
      && a.offset / READ_BLOCK_SIZE < |rds| && rds[a.offset / READ_BLOCK_SIZE].cell == c
      && (a.kind == Read ==> a == AioReadSetup(s.srcFd, a.offset, Slice(c), READ_BLOCK_SIZE))
      && (a.kind == Write ==> a.fildes == s.dstFd)
  }

  /** Every write goes to the destination at the offset of a read by the same cell, from
      that cell's slice. */
  predicate WritesFromReads(s: PosixState, rds: seq<Setup>, wrs: seq<Setup>)
  {
    forall j :: 0 <= j < |wrs| ==>
      var w := wrs[j];
      && w.aiocb.fildes == s.dstFd && w.aiocb.buf == Slice(w.cell)
      && 0 <= w.aiocb.offset && w.aiocb.offset % READ_BLOCK_SIZE == 0
      && w.aiocb.offset / READ_BLOCK_SIZE < |rds| && rds[w.aiocb.offset / READ_BLOCK_SIZE].cell == w.cell
  }

  /** Every block read so far has been written, was read empty, or is still held by the
      cell that read it. */
  predicate ReadsAccounted(s: PosixState, rds: seq<Setup>, written: seq<int>, lost: seq<int>)
    requires Shaped(s)
  {
    forall k :: 0 <= k < |rds| ==>
      || k * READ_BLOCK_SIZE in written
      || k * READ_BLOCK_SIZE in lost
      || (var c := rds[k].cell; c < QUEUE_SIZE && s.waitList[c] && s.aiocbs[c].offset == k * READ_BLOCK_SIZE)
  }

  /** A block reported with 0 bytes is a whole block the cursor has passed. */
  predicate LostFromReads(s: PosixState, lost: seq<int>)
  {
    forall j :: 0 <= j < |lost| ==> 0 <= lost[j] < s.srcOff && lost[j] % READ_BLOCK_SIZE == 0
  }

  predicate Inv(t: Trace)
  {
    var s, rds := t.state, OfKind(t.log, Read);
    && Counters(s)
    && LostFromReads(s, t.lost)
    && ReadsTile(s, rds)
    && CellsFromReads(s, rds)
    && WritesFromReads(s, rds, OfKind(t.log, Write))
    && ReadsAccounted(s, rds, t.written, t.lost)
  }

  /** While data remains, every cell is listed. */
  predicate Saturated(s: PosixState)
    requires Shaped(s)
  {
    s.srcOff < s.srcSize ==> forall c :: 0 <= c < QUEUE_SIZE ==> s.waitList[c]
  }

  /** Some block before the last block of the rounded file was reported with 0 bytes. */
  predicate EarlyLoss(t: Trace)
  {
    exists x :: x in t.lost && x + READ_BLOCK_SIZE < t.state.srcSize
  }

  /** Every cell stays listed while data remains, unless a block before the last one was
      reported empty: a zero result can only end the copy early that way. */
  predicate Covering(t: Trace)
    requires Shaped(t.state)
  {
    Saturated(t.state) || EarlyLoss(t)
  }

  // ---------------------------------------------------------------------------
  // Steps the proofs are phrased in
  // ---------------------------------------------------------------------------

  /** List `cell` with an accepted full-block read at the cursor, and count it. */
  function ReadNext(t: Trace, cell: nat): (r: Trace)
    requires Shaped(t.state) && cell < QUEUE_SIZE
    ensures Shaped(r.state) && r.state.srcSize == t.state.srcSize && r.state.srcFd == t.state.srcFd
  {
    var s := t.state;
    var q := Armed(t, cell, AioReadSetup(s.srcFd, s.srcOff, Slice(cell), READ_BLOCK_SIZE));
    q.(state := q.state.(waitList := s.waitList[cell := true], srcOff := s.srcOff + READ_BLOCK_SIZE,
                         numIoReqs := ToSizeT(s.numIoReqs + 1)))
  }

  /** Take `cell` out of the wait list, recording its block as written (`done`) or as
      read empty. */
  function Retire(t: Trace, cell: nat, done: bool): (r: Trace)
    requires Shaped(t.state) && cell < QUEUE_SIZE
    ensures Shaped(r.state)
  {
    var s := t.state;
    var o := s.aiocbs[cell].offset;
    t.(state := s.(waitList := s.waitList[cell := false], numIoReqs := ToSizeT(s.numIoReqs - 1)),
       written := if done then t.written + [o] else t.written,
       lost := if done then t.lost else t.lost + [o])
  }

  /** A finished write that is re-armed is a retirement followed by a fresh read. */
  lemma WriteThenReadIsRetireThenRead(t: Trace, i: nat, p: Poll)
    requires Inv(t) && i < QUEUE_SIZE && t.state.waitList[i] && p.Done? && p.accepted
    requires t.state.aiocbs[i].kind == Write && p.ret != 0 && t.state.srcOff < t.state.srcSize
    ensures ScanCell(t, i, p) == Running(ReadNext(Retire(t, i, true), i))
  {
    CountPositive(t.state.waitList, true, i);
    assert t.state.waitList[i := false][i := true] == t.state.waitList;
  }

  // ---------------------------------------------------------------------------
  // Each step keeps the invariant
  // ---------------------------------------------------------------------------

  lemma StartInv(srcFd: int, dstFd: int, srcSize: nat)
    requires srcSize % READ_BLOCK_SIZE == 0
    ensures Inv(Start(srcFd, dstFd, srcSize))
  {
    var s := Start(srcFd, dstFd, srcSize).state;
    assert forall c :: 0 <= c < QUEUE_SIZE ==> !s.waitList[c];
    CountAll(s.waitList, false);
    CountTwo(s.waitList, false, true);
  }

  lemma CountersReadNext(s: PosixState, s': PosixState, cell: nat)
    requires Counters(s) && cell < QUEUE_SIZE && !s.waitList[cell] && s.srcOff < s.srcSize
    requires s'.srcSize == s.srcSize && s'.srcOff == s.srcOff + READ_BLOCK_SIZE
    requires |s'.aiocbs| == QUEUE_SIZE && s'.waitList == s.waitList[cell := true]
    requires s'.numIoReqs == ToSizeT(s.numIoReqs + 1)
    ensures Counters(s')
  {
    CountUpdate(s.waitList, cell, true, true);
    assert s.srcSize - s.srcOff >= READ_BLOCK_SIZE by {
      assert (s.srcSize - s.srcOff) % READ_BLOCK_SIZE == 0;
    }
  }

  lemma ReadsTileNext(s: PosixState, s': PosixState, rds: seq<Setup>, x: Setup)
    requires ReadsTile(s, rds)
    requires s'.srcFd == s.srcFd && s'.srcOff == s.srcOff + READ_BLOCK_SIZE
    requires x.cell < QUEUE_SIZE && x.aiocb == AioReadSetup(s.srcFd, s.srcOff, Slice(x.cell), READ_BLOCK_SIZE)
    ensures ReadsTile(s', rds + [x])
  {
    var rds' := rds + [x];
    forall k | 0 <= k < |rds'|
      ensures rds'[k].cell < QUEUE_SIZE
      ensures rds'[k].aiocb == AioReadSetup(s.srcFd, k * READ_BLOCK_SIZE, Slice(rds'[k].cell), READ_BLOCK_SIZE)
    {
      if k < |rds| { assert rds'[k] == rds[k]; }
    }
  }

  lemma CellsFromReadsNext(s: PosixState, s': PosixState, rds: seq<Setup>, x: Setup)
    requires Shaped(s) && Shaped(s') && CellsFromReads(s, rds) && ReadsTile(s, rds)
    requires x.cell < QUEUE_SIZE && !s.waitList[x.cell]
    requires x.aiocb == AioReadSetup(s.srcFd, s.srcOff, Slice(x.cell), READ_BLOCK_SIZE)
    requires s'.srcFd == s.srcFd && s'.dstFd == s.dstFd && s'.srcOff == s.srcOff + READ_BLOCK_SIZE
    requires s'.aiocbs == s.aiocbs[x.cell := x.aiocb] && s'.waitList == s.waitList[x.cell := true]
    ensures CellsFromReads(s', rds + [x])
  {
    var rds' := rds + [x];
    forall c | 0 <= c < QUEUE_SIZE && s'.waitList[c]
      ensures var a := s'.aiocbs[c];
        && a.buf == Slice(c)
        && 0 <= a.offset < s'.srcOff && a.offset % READ_BLOCK_SIZE == 0
        && a.offset / READ_BLOCK_SIZE < |rds'| && rds'[a.offset / READ_BLOCK_SIZE].cell == c
        && (a.kind == Read ==> a == AioReadSetup(s'.srcFd, a.offset, Slice(c), READ_BLOCK_SIZE))
        && (a.kind == Write ==> a.fildes == s'.dstFd)
    {
      if c == x.cell {
        assert (|rds| * READ_BLOCK_SIZE) / READ_BLOCK_SIZE == |rds|;
      } else {
        assert rds'[s.aiocbs[c].offset / READ_BLOCK_SIZE] == rds[s.aiocbs[c].offset / READ_BLOCK_SIZE];
      }
    }
  }

  lemma WritesFromMoreReads(s: PosixState, s': PosixState, rds: seq<Setup>, x: Setup, wrs: seq<Setup>)
    requires WritesFromReads(s, rds, wrs) && s'.dstFd == s.dstFd
    ensures WritesFromReads(s', rds + [x], wrs)
  {
    forall j | 0 <= j < |wrs|
      ensures (rds + [x])[wrs[j].aiocb.offset / READ_BLOCK_SIZE].cell == wrs[j].cell
    {
      assert (rds + [x])[wrs[j].aiocb.offset / READ_BLOCK_SIZE] == rds[wrs[j].aiocb.offset / READ_BLOCK_SIZE];
    }
  }

  lemma ReadsAccountedNext(s: PosixState, s': PosixState, rds: seq<Setup>, x: Setup, written: seq<int>, lost: seq<int>)
    requires Shaped(s) && Shaped(s') && ReadsAccounted(s, rds, written, lost) && ReadsTile(s, rds)
    requires x.cell < QUEUE_SIZE && !s.waitList[x.cell] && x.aiocb.offset == s.srcOff
    requires s'.aiocbs == s.aiocbs[x.cell := x.aiocb] && s'.waitList == s.waitList[x.cell := true]
    ensures ReadsAccounted(s', rds + [x], written, lost)
  {
    var rds' := rds + [x];
    forall k | 0 <= k < |rds'|
      ensures || k * READ_BLOCK_SIZE in written
              || k * READ_BLOCK_SIZE in lost
              || (var c := rds'[k].cell;
                  c < QUEUE_SIZE && s'.waitList[c] && s'.aiocbs[c].offset == k * READ_BLOCK_SIZE)
    {
      if k < |rds| { assert rds'[k] == rds[k]; }
    }
  }

  /** An accepted full-block read at the cursor into an unlisted cell's own slice keeps
      the invariant. */
  lemma ReadNextInv(t: Trace, cell: nat)
    requires Inv(t) && cell < QUEUE_SIZE && !t.state.waitList[cell] && t.state.srcOff < t.state.srcSize
    ensures Inv(ReadNext(t, cell))
  {
    var s := t.state;
    var r := ReadNext(t, cell);
    var x := Setup(cell, AioReadSetup(s.srcFd, s.srcOff, Slice(cell), READ_BLOCK_SIZE));
    var rds := OfKind(t.log, Read);
    assert r.log == t.log + [x];
    OfKindAppend(t.log, x, Read);
    OfKindAppend(t.log, x, Write);
    CountersReadNext(s, r.state, cell);
    ReadsTileNext(s, r.state, rds, x);
    CellsFromReadsNext(s, r.state, rds, x);
    WritesFromMoreReads(s, r.state, rds, x, OfKind(t.log, Write));
    ReadsAccountedNext(s, r.state, rds, x, t.written, t.lost);
  }

  lemma CountersRetire(s: PosixState, s': PosixState, cell: nat)
    requires Counters(s) && cell < QUEUE_SIZE && s.waitList[cell]
    requires s' == s.(waitList := s.waitList[cell := false], numIoReqs := ToSizeT(s.numIoReqs - 1))
    ensures Counters(s') && s'.numIoReqs == s.numIoReqs - 1
  {
    CountPositive(s.waitList, true, cell);
    CountUpdate(s.waitList, cell, false, true);
  }

  lemma ReadsAccountedRetire(s: PosixState, s': PosixState, rds: seq<Setup>, written: seq<int>, lost: seq<int>,
                             written': seq<int>, lost': seq<int>, cell: nat)
    requires Shaped(s) && Shaped(s') && ReadsAccounted(s, rds, written, lost)
    requires cell < QUEUE_SIZE && s'.aiocbs == s.aiocbs && s'.waitList == s.waitList[cell := false]
    requires || (written' == written + [s.aiocbs[cell].offset] && lost' == lost)
             || (written' == written && lost' == lost + [s.aiocbs[cell].offset])
    ensures ReadsAccounted(s', rds, written', lost')
  {
    forall k | 0 <= k < |rds|
      ensures || k * READ_BLOCK_SIZE in written'
              || k * READ_BLOCK_SIZE in lost'
              || (var c := rds[k].cell;
                  c < QUEUE_SIZE && s'.waitList[c] && s'.aiocbs[c].offset == k * READ_BLOCK_SIZE)
    {
      if rds[k].cell == cell && k * READ_BLOCK_SIZE !in written && k * READ_BLOCK_SIZE !in lost {
        assert k * READ_BLOCK_SIZE == s.aiocbs[cell].offset;
      }
    }
  }

  /** Taking a listed cell out of the wait list keeps the invariant and lowers
      `num_io_reqs`. */
  lemma RetireInv(t: Trace, cell: nat, done: bool)
    requires Inv(t) && cell < QUEUE_SIZE && t.state.waitList[cell]
    ensures var r := Retire(t, cell, done);
      Inv(r) && r.state.numIoReqs == t.state.numIoReqs - 1
  {
    var r := Retire(t, cell, done);
    CountersRetire(t.state, r.state, cell);
    ReadsAccountedRetire(t.state, r.state, OfKind(t.log, Read), t.written, t.lost, r.written, r.lost, cell);
    assert LostFromReads(r.state, r.lost) by {
      if !done {
        forall j | 0 <= j < |r.lost|
          ensures 0 <= r.lost[j] < r.state.srcOff && r.lost[j] % READ_BLOCK_SIZE == 0
        {
          if j < |t.lost| { assert r.lost[j] == t.lost[j]; }
        }
      }
    }
  }

  /** A block reported with 0 bytes leaves the copy covering: either no data remains, or
      the block lies before the last one, since the cursor has passed it and is short of
      the end. */
  lemma LoseCovering(t: Trace, cell: nat)
    requires Inv(t) && cell < QUEUE_SIZE && t.state.waitList[cell]
    ensures Covering(Retire(t, cell, false))
  {
    var s := t.state;
    var o := s.aiocbs[cell].offset;
    if s.srcOff < s.srcSize {
      assert s.srcSize - s.srcOff >= READ_BLOCK_SIZE by {
        assert (s.srcSize - s.srcOff) % READ_BLOCK_SIZE == 0;
      }
      assert o in Retire(t, cell, false).lost;
    }
  }

  lemma CellsFromReadsSwap(s: PosixState, s': PosixState, rds: seq<Setup>, cell: nat, a: Aiocb)
    requires Shaped(s) && Shaped(s') && CellsFromReads(s, rds)
    requires cell < QUEUE_SIZE && s.waitList[cell]
    requires a == AioWriteSetup(s.dstFd, s.aiocbs[cell].offset, Slice(cell), a.nbytes)
    requires s' == s.(aiocbs := s.aiocbs[cell := a])
    ensures CellsFromReads(s', rds)
  {
  }

  lemma WritesFromReadsWrite(s: PosixState, rds: seq<Setup>, wrs: seq<Setup>, x: Setup)
    requires Shaped(s) && WritesFromReads(s, rds, wrs) && CellsFromReads(s, rds)
    requires x.cell < QUEUE_SIZE && s.waitList[x.cell]
    requires x.aiocb == AioWriteSetup(s.dstFd, s.aiocbs[x.cell].offset, Slice(x.cell), x.aiocb.nbytes)
    ensures WritesFromReads(s, rds, wrs + [x])
  {
    var wrs' := wrs + [x];
    forall j | 0 <= j < |wrs'|
      ensures var w := wrs'[j];
        && w.aiocb.fildes == s.dstFd && w.aiocb.buf == Slice(w.cell)
        && 0 <= w.aiocb.offset && w.aiocb.offset % READ_BLOCK_SIZE == 0
        && w.aiocb.offset / READ_BLOCK_SIZE < |rds| && rds[w.aiocb.offset / READ_BLOCK_SIZE].cell == w.cell
    {
      if j < |wrs| { assert wrs'[j] == wrs[j]; }
    }
  }

  lemma ReadsAccountedSwap(s: PosixState, s': PosixState, rds: seq<Setup>, written: seq<int>, lost: seq<int>,
                           cell: nat, a: Aiocb)
    requires Shaped(s) && Shaped(s') && ReadsAccounted(s, rds, written, lost)
    requires cell < QUEUE_SIZE && a.offset == s.aiocbs[cell].offset
    requires s' == s.(aiocbs := s.aiocbs[cell := a])
    ensures ReadsAccounted(s', rds, written, lost)
  {
  }

  /** A finished read that returned bytes becomes, once accepted, a write of that many
      bytes at the same offset from the same slice; the invariant is kept. */
  lemma ReadToWriteInv(t: Trace, i: nat, p: Poll)
    requires Inv(t) && i < QUEUE_SIZE && t.state.waitList[i] && p.Done? && p.accepted
    requires t.state.aiocbs[i].kind == Read && p.ret != 0
    ensures ScanCell(t, i, p).Running? && Inv(ScanCell(t, i, p).trace)
  {
    var s := t.state;
    var a := s.aiocbs[i];
    var x := Setup(i, AioWriteSetup(s.dstFd, a.offset, Slice(i), ToSizeT(p.ret)));
    var r := ScanCell(t, i, p).trace;
    assert r == Armed(t, i, x.aiocb);
    OfKindAppend(t.log, x, Read);
    OfKindAppend(t.log, x, Write);
    CellsFromReadsSwap(s, r.state, OfKind(t.log, Read), i, x.aiocb);
    WritesFromReadsWrite(s, OfKind(t.log, Read), OfKind(t.log, Write), x);
    ReadsAccountedSwap(s, r.state, OfKind(t.log, Read), t.written, t.lost, i, x.aiocb);
  }

  /** What a scan step that goes on keeps: the invariant, no newly listed cell, a
      `num_io_reqs` that does not grow, a cursor that does not move back, coverage, and
      with a non-zero result every cell listed while data remains and no block lost. */
  predicate ScanKeeps(t: Trace, p: Poll, r: Trace)
    requires Shaped(t.state) && Shaped(r.state)
  {
    && Inv(r)
    && (forall c :: 0 <= c < QUEUE_SIZE && !t.state.waitList[c] ==> !r.state.waitList[c])
    && r.state.numIoReqs <= t.state.numIoReqs
    && t.state.srcOff <= r.state.srcOff
    && (p.Done? && p.ret != 0 && Saturated(t.state) ==> Saturated(r.state))
    && (p.Done? && p.ret != 0 ==> r.lost == t.lost)
    && (Covering(t) ==> Covering(r))
  }

  /** A finished read: its write is issued, or the cell retires if it read nothing. */
  lemma ScanReadInv(t: Trace, i: nat, p: Poll)
    requires Inv(t) && i < QUEUE_SIZE && t.state.waitList[i] && p.Done? && t.state.aiocbs[i].kind == Read
    ensures var o := ScanCell(t, i, p); o.Running? ==> ScanKeeps(t, p, o.trace)
  {
    if p.ret != 0 {
      if p.accepted { ReadToWriteInv(t, i, p); }
    } else {
      assert ScanCell(t, i, p) == Running(Retire(t, i, false));
      RetireInv(t, i, false);
      LoseCovering(t, i);
    }
  }

  /** A finished write while data remains: the cell reads the next block. */
  lemma ScanWriteReadInv(t: Trace, i: nat, p: Poll)
    requires Inv(t) && i < QUEUE_SIZE && t.state.waitList[i] && p.Done? && t.state.aiocbs[i].kind != Read
    requires p.ret != 0 && t.state.srcOff < t.state.srcSize
    ensures var o := ScanCell(t, i, p); o.Running? ==> ScanKeeps(t, p, o.trace)
  {
    if p.accepted {
      WriteThenReadIsRetireThenRead(t, i, p);
      RetireInv(t, i, true);
      ReadNextInv(Retire(t, i, true), i);
      CountPositive(t.state.waitList, true, i);
    }
  }

  /** A finished write at the end of the file, or one that wrote nothing: the cell
      retires, its block written in the first case and lost in the second. */
  lemma ScanWriteDoneInv(t: Trace, i: nat, p: Poll)
    requires Inv(t) && i < QUEUE_SIZE && t.state.waitList[i] && p.Done? && t.state.aiocbs[i].kind != Read
    requires !(p.ret != 0 && t.state.srcOff < t.state.srcSize)
    ensures var o := ScanCell(t, i, p); o.Running? ==> ScanKeeps(t, p, o.trace)
  {
    assert ScanCell(t, i, p) == Running(Retire(t, i, p.ret != 0));
    RetireInv(t, i, p.ret != 0);
    if p.ret == 0 {
      LoseCovering(t, i);
    }
  }

  /** Every scan step that does not end the copy keeps the invariant; it never lists a
      cell that was not listed, so a retired cell stays retired and `num_io_reqs` never
      grows; a cell that is not listed or still in progress is left exactly as it was. */
  lemma ScanCellInv(t: Trace, i: nat, p: Poll)
    requires Inv(t) && i < QUEUE_SIZE
    ensures var o := ScanCell(t, i, p);
      && (!t.state.waitList[i] || p.Pending? ==> o == Running(t))
      && (o.Running? ==>
            && Inv(o.trace)
            && (forall c :: 0 <= c < QUEUE_SIZE && !t.state.waitList[c] ==> !o.trace.state.waitList[c])
            && o.trace.state.numIoReqs <= t.state.numIoReqs
            && t.state.srcOff <= o.trace.state.srcOff
            && (p.Done? && p.ret != 0 && Saturated(t.state) ==> Saturated(o.trace.state))
            && (p.Done? && p.ret != 0 ==> o.trace.lost == t.lost)
            && (Covering(t) ==> Covering(o.trace)))
  {
    var s := t.state;
    if s.waitList[i] && p.Done? {
      if s.aiocbs[i].kind == Read {
        ScanReadInv(t, i, p);
      } else if p.ret != 0 && s.srcOff < s.srcSize {
        ScanWriteReadInv(t, i, p);
      } else {
        ScanWriteDoneInv(t, i, p);
      }
    }
  }

  /** No finished request in any round reports 0 bytes. */
  predicate NoZeroResults(rounds: seq<Round>)
  {
    forall k :: 0 <= k < |rounds| && rounds[k].Scan? ==>
      forall i :: 0 <= i < |rounds[k].polls| && rounds[k].polls[i].Done? ==> rounds[k].polls[i].ret != 0
  }

  predicate NoZeroPolls(polls: seq<Poll>)
  {
    forall i :: 0 <= i < |polls| && polls[i].Done? ==> polls[i].ret != 0
  }

  lemma {:induction false} ScanFromInv(t: Trace, polls: seq<Poll>, i: nat)
    requires Inv(t) && |polls| == QUEUE_SIZE && i <= QUEUE_SIZE
    ensures var o := ScanFrom(t, polls, i);
      o.Running? ==>
        && Inv(o.trace)
        && (forall c :: 0 <= c < QUEUE_SIZE && !t.state.waitList[c] ==> !o.trace.state.waitList[c])
        && o.trace.state.numIoReqs <= t.state.numIoReqs
        && t.state.srcOff <= o.trace.state.srcOff
        && (NoZeroPolls(polls) && Saturated(t.state) ==> Saturated(o.trace.state) && o.trace.lost == t.lost)
        && (Covering(t) ==> Covering(o.trace))
    decreases QUEUE_SIZE - i
  {
    if i < QUEUE_SIZE {
      ScanCellInv(t, i, polls[i]);
      var o := ScanCell(t, i, polls[i]);
      if o.Running? {
        ScanFromInv(o.trace, polls, i + 1);
      }
    }
  }

  lemma RoundsTail(rounds: seq<Round>)
    requires RoundsFit(rounds) && rounds != []
    ensures RoundsFit(rounds[1..])
    ensures NoZeroResults(rounds) ==> NoZeroResults(rounds[1..])
    ensures NoZeroResults(rounds) && rounds[0].Scan? ==> NoZeroPolls(rounds[0].polls)
  {
    forall k | 0 <= k < |rounds| - 1
      ensures rounds[1..][k] == rounds[k + 1]
    {
    }
  }

  /** The main loop keeps the invariant, never re-lists a retired cell, and ends with no
      request listed. */
  lemma {:induction false} LoopInv(t: Trace, rounds: seq<Round>)
    requires Inv(t) && RoundsFit(rounds)
    ensures var o := Loop(t, rounds);
      && (o.Running? || o.Completed? ==>
            && Inv(o.trace)
            && (forall c :: 0 <= c < QUEUE_SIZE && !t.state.waitList[c] ==> !o.trace.state.waitList[c])
            && o.trace.state.numIoReqs <= t.state.numIoReqs)
      && (o.Completed? ==> o.trace.state.numIoReqs == 0)
      && (NoZeroResults(rounds) && Saturated(t.state) && o.Completed? ==>
            Saturated(o.trace.state) && o.trace.lost == t.lost)
      && (Covering(t) && o.Completed? ==> Covering(o.trace))
    decreases |rounds|
  {
    if t.state.numIoReqs != 0 && rounds != [] {
      RoundsTail(rounds);
      var o := DoRound(t, rounds[0]);
      if rounds[0].Scan? {
        ScanFromInv(t, rounds[0].polls, 0);
      }
      if o.Running? {
        assert Loop(t, rounds) == Loop(o.trace, rounds[1..]);
        LoopInv(o.trace, rounds[1..]);
      }
    }
  }

  // ---------------------------------------------------------------------------
  // Priming, and what a completed copy has done
  // ---------------------------------------------------------------------------

  /** After priming cells `0 .. i)`: exactly those are listed, each with a full-block read
      at its own block into its own slice; the cursor is at block `i`; nothing has
      finished. */
  predicate PrimedUpTo(t: Trace, i: nat)
  {
    Inv(t) && PrimedShape(t, i)
  }

  /** The first `i` cells hold the first `i` blocks' reads, and nothing else has happened. */
  predicate PrimedShape(t: Trace, i: nat)
  {
    && Shaped(t.state) && i <= QUEUE_SIZE
    && t.state.srcOff == i * READ_BLOCK_SIZE && t.state.numIoReqs == i
    && (forall c :: 0 <= c < QUEUE_SIZE ==> (t.state.waitList[c] <==> c < i))
    && (forall c :: 0 <= c < i ==>
          t.state.aiocbs[c] == AioReadSetup(t.state.srcFd, c * READ_BLOCK_SIZE, Slice(c), READ_BLOCK_SIZE))
    && t.lost == [] && t.written == []
  }

  lemma PrimeStep(t: Trace, i: nat)
    requires PrimedUpTo(t, i) && i < QUEUE_SIZE && t.state.srcOff < t.state.srcSize
    ensures PrimedUpTo(ReadNext(t, i), i + 1)
  {
    ReadNextInv(t, i);
    PrimedShapeStep(t, i);
  }

  lemma PrimedShapeStep(t: Trace, i: nat)
    requires PrimedShape(t, i) && i < QUEUE_SIZE
    ensures PrimedShape(ReadNext(t, i), i + 1)
  {
  }

  /** How many reads priming issues: a read per cell while blocks remain. */
  function PrimeCount(srcSize: nat): nat
  {
    Min(QUEUE_SIZE, srcSize / READ_BLOCK_SIZE)
  }

  lemma PrimeUnfold(t: Trace, i: nat, accepts: seq<bool>)
    requires Shaped(t.state) && i < QUEUE_SIZE && t.state.srcOff < t.state.srcSize && |accepts| == QUEUE_SIZE
    ensures accepts[i] ==> PrimeFrom(t, i, accepts) == PrimeFrom(ReadNext(t, i), i + 1, accepts)
    ensures !accepts[i] ==>
      PrimeFrom(t, i, accepts) == Issue(t, i, AioReadSetup(t.state.srcFd, t.state.srcOff, Slice(i), READ_BLOCK_SIZE), false)
  {
  }

  /** Whether priming from cell `i` gets through: the cursor is at block `i`, and the
      blocks counted by `PrimeCount` are the ones it reads. */
  lemma PrimeBounds(t: Trace, i: nat)
    requires PrimedUpTo(t, i)
    ensures i < QUEUE_SIZE && t.state.srcOff < t.state.srcSize <==> i < PrimeCount(t.state.srcSize)
  {
    assert (i * READ_BLOCK_SIZE) / READ_BLOCK_SIZE == i;
    if i < QUEUE_SIZE && t.state.srcOff < t.state.srcSize {
      DivAtLeast(i + 1, t.state.srcSize, READ_BLOCK_SIZE);
    } else if i < QUEUE_SIZE {
      assert t.state.srcOff == t.state.srcSize;
    } else {
      DivAtLeast(QUEUE_SIZE, t.state.srcSize, READ_BLOCK_SIZE);
    }
  }

  /** The priming loop, when the library accepts every read, lists the cells `0 .. n)`
      for `n = PrimeCount(size)`, cell `c` reading block `c` into slice `c`, and leaves
      every cell listed while data remains; it ends the copy exactly when a read it
      issues is rejected. */
  lemma {:induction false} PrimeFromInv(t: Trace, i: nat, accepts: seq<bool>)
    requires PrimedUpTo(t, i) && |accepts| == QUEUE_SIZE
    ensures var o := PrimeFrom(t, i, accepts);
      && (o.Running? <==> forall c :: i <= c < PrimeCount(t.state.srcSize) ==> accepts[c])
      && (o.Running? ==> PrimedUpTo(o.trace, PrimeCount(t.state.srcSize)) && Saturated(o.trace.state))
    decreases QUEUE_SIZE - i
  {
    PrimeBounds(t, i);
    if i < QUEUE_SIZE && t.state.srcOff < t.state.srcSize {
      PrimeUnfold(t, i, accepts);
      if accepts[i] {
        PrimeStep(t, i);
        PrimeFromInv(ReadNext(t, i), i + 1, accepts);
        assert (forall c :: i <= c < PrimeCount(t.state.srcSize) ==> accepts[c]) <==>
               (forall c :: i + 1 <= c < PrimeCount(t.state.srcSize) ==> accepts[c]);
      }
    }
  }

  /** What `PrimeFrom(Start(...), 0, accepts)` begins from satisfies `PrimedUpTo`: an
      all-NULL wait list, the cursor and the counter at 0, nothing written or lost. */
  lemma StartPrimed(srcFd: int, dstFd: int, srcSize: nat)
    requires srcSize % READ_BLOCK_SIZE == 0
    ensures PrimedUpTo(Start(srcFd, dstFd, srcSize), 0)
  {
    StartInv(srcFd, dstFd, srcSize);
  }

  /** When `num_io_reqs` reaches 0 the wait list is empty and every block read has been
      written or read empty; if every cell stayed listed while data remained, the reads
      reached the end of the rounded file. */
  lemma Finished(t: Trace)
    requires Inv(t) && t.state.numIoReqs == 0
    ensures forall c :: 0 <= c < QUEUE_SIZE ==> !t.state.waitList[c]
    ensures var rds := OfKind(t.log, Read);
      forall k :: 0 <= k < |rds| ==> k * READ_BLOCK_SIZE in t.written || k * READ_BLOCK_SIZE in t.lost
    ensures Saturated(t.state) ==> |OfKind(t.log, Read)| * READ_BLOCK_SIZE == t.state.srcSize
  {
    forall c | 0 <= c < QUEUE_SIZE
      ensures !t.state.waitList[c]
    {
      CountZero(t.state.waitList, true, c);
    }
  }

  /** The main loop from a primed state: a run that completes has emptied the wait list,
      has read the blocks at `0, B, 2B, ...` in order, each a full block, and has written
      or read empty every block it read; without zero results nothing is lost, and
      unless a block before the last was reported with 0 bytes, it has read every block
      below the rounded size, written each of them or lost it, and lost at most the last
      one. */
  lemma LoopCorrect(p: Trace, rounds: seq<Round>)
    requires Inv(p) && Saturated(p.state) && p.lost == [] && RoundsFit(rounds)
    ensures var o := Loop(p, rounds);
      o.Completed? ==>
        var rds := OfKind(o.trace.log, Read);
        && (forall c :: 0 <= c < QUEUE_SIZE ==> !o.trace.state.waitList[c])
        && (forall k :: 0 <= k < |rds| ==>
              rds[k].aiocb == AioReadSetup(p.state.srcFd, k * READ_BLOCK_SIZE, Slice(rds[k].cell), READ_BLOCK_SIZE))
        && (forall k :: 0 <= k < |rds| ==> k * READ_BLOCK_SIZE in o.trace.written || k * READ_BLOCK_SIZE in o.trace.lost)
        && (NoZeroResults(rounds) ==> o.trace.lost == [])
        && ((forall x :: x in o.trace.lost ==> x + READ_BLOCK_SIZE >= p.state.srcSize) ==>
              && |rds| * READ_BLOCK_SIZE == p.state.srcSize
              && (forall k :: 0 <= k < p.state.srcSize / READ_BLOCK_SIZE ==>
                    k * READ_BLOCK_SIZE in o.trace.written || k * READ_BLOCK_SIZE in o.trace.lost)
              && forall x :: x in o.trace.lost ==> x + READ_BLOCK_SIZE == p.state.srcSize)
  {
    LoopInv(p, rounds);
    var o := Loop(p, rounds);
    if o.Completed? {
      Finished(o.trace);
      if forall x :: x in o.trace.lost ==> x + READ_BLOCK_SIZE >= p.state.srcSize {
        var n := |OfKind(o.trace.log, Read)|;
        assert (n * READ_BLOCK_SIZE) / READ_BLOCK_SIZE == n;
        LastLost(o.trace);
      }
    }
  }

  /** Once the cursor is at the end, a lost block not before the last is the last. */
  lemma LastLost(t: Trace)
    requires Inv(t) && t.state.srcOff == t.state.srcSize
    ensures forall x :: x in t.lost && x + READ_BLOCK_SIZE >= t.state.srcSize ==> x + READ_BLOCK_SIZE == t.state.srcSize
  {
    var s := t.state;
    forall x | x in t.lost && x + READ_BLOCK_SIZE >= s.srcSize
      ensures x + READ_BLOCK_SIZE == s.srcSize
    {
      var j :| 0 <= j < |t.lost| && t.lost[j] == x;
      assert (s.srcSize - x) % READ_BLOCK_SIZE == 0;
    }
  }

  /** The copy with the rounding done without wrap-around.  A rejected priming read ends
      it; a completed copy has emptied the wait list, and without zero results has lost
      nothing.  When no block below the file size was reported with 0 bytes, as when the
      only empty answer is the read at the end of the file, it has written every block of
      the file, the last one included, and the only lost block is the one at the file
      size. */
  lemma CopyFileCorrect(srcSize: u32, srcFd: int, dstFd: int, accepts: seq<bool>, rounds: seq<Round>)
    requires |accepts| == QUEUE_SIZE && RoundsFit(rounds)
    ensures var o := CopyFile(srcSize, srcFd, dstFd, accepts, rounds);
      && ((exists c :: 0 <= c < PrimeCount(RoundUp(srcSize, READ_BLOCK_SIZE)) && !accepts[c]) ==>
            o.Aborted? && o.failure == RequestRejected)
      && (o.Completed? ==>
            && (forall c :: 0 <= c < QUEUE_SIZE ==> !o.trace.state.waitList[c])
            && (NoZeroResults(rounds) ==> o.trace.lost == [])
            && ((forall x :: x in o.trace.lost ==> x >= srcSize) ==>
                  && (forall off :: 0 <= off < srcSize && off % READ_BLOCK_SIZE == 0 ==> off in o.trace.written)
                  && forall x :: x in o.trace.lost ==> x == srcSize))
  {
    var rounded := RoundUp(srcSize, READ_BLOCK_SIZE);
    var t0 := Start(srcFd, dstFd, rounded);
    StartPrimed(srcFd, dstFd, rounded);
    PrimeFromInv(t0, 0, accepts);
    var o := PrimeFrom(t0, 0, accepts);
    if o.Running? {
      LoopCorrect(o.trace, rounds);
      var f := Loop(o.trace, rounds);
      if f.Completed? && forall x :: x in f.trace.lost ==> x >= srcSize {
        CoverBelowSize(srcSize, READ_BLOCK_SIZE, f.trace.written, f.trace.lost);
      }
    }
  }

  /** As written, a file of at least 2^32 - READ_BLOCK_SIZE bytes rounds to 0: the copy
      issues nothing and completes at once without copying a byte, whatever the library
      would answer. */
  lemma AsWrittenCopiesNothing(srcSize: u32, srcFd: int, dstFd: int, accepts: seq<bool>, rounds: seq<Round>)
    requires U32 - READ_BLOCK_SIZE <= srcSize && |accepts| == QUEUE_SIZE && RoundsFit(rounds)
    ensures CopyFileAsWritten(srcSize, srcFd, dstFd, accepts, rounds) == Completed(Start(srcFd, dstFd, 0))
    ensures RoundUp(srcSize, READ_BLOCK_SIZE) == U32
  {
    RoundUp32Wraps(srcSize, READ_BLOCK_SIZE);
  }

  // ---------------------------------------------------------------------------
  // Progress
  // ---------------------------------------------------------------------------

  /** What a cell still costs: a pending read two completions, a pending write one. */
  function Weight(s: PosixState, c: nat): nat
    requires Shaped(s) && c < QUEUE_SIZE
  {
    if !s.waitList[c] then 0 else if s.aiocbs[c].kind == Read then 2 else 1
  }

  /** The weights of all cells; here the wait list, not a stage, says which cells are
      active. */
  function Weights(s: PosixState): (w: seq<nat>)
    requires Shaped(s)
    ensures |w| == QUEUE_SIZE
  {
    seq(QUEUE_SIZE, c requires 0 <= c < QUEUE_SIZE => Weight(s, c))
  }

  /** Every block still to read costs three completions, on top of what the listed cells
      still cost. */
  function Measure(s: PosixState): nat
    requires Counters(s)
  {
    3 * ((s.srcSize - s.srcOff) / READ_BLOCK_SIZE) + Sum(Weights(s))
  }

  lemma WeightsUpdate(s: PosixState, s': PosixState, cell: nat)
    requires Shaped(s) && Shaped(s') && cell < QUEUE_SIZE
    requires forall c :: 0 <= c < QUEUE_SIZE && c != cell ==> s'.waitList[c] == s.waitList[c] && s'.aiocbs[c] == s.aiocbs[c]
    ensures Sum(Weights(s')) == Sum(Weights(s)) - Weight(s, cell) + Weight(s', cell)
  {
    assert Weights(s') == Weights(s)[cell := Weight(s', cell)];
    SumUpdate(Weights(s), cell, Weight(s', cell));
  }

  lemma MeasureStep(s: PosixState, s': PosixState, cell: nat)
    requires Counters(s) && Counters(s') && cell < QUEUE_SIZE && s'.srcSize == s.srcSize
    requires forall c :: 0 <= c < QUEUE_SIZE && c != cell ==> s'.waitList[c] == s.waitList[c] && s'.aiocbs[c] == s.aiocbs[c]
    requires || (s'.srcOff == s.srcOff && Weight(s', cell) < Weight(s, cell))
             || (s'.srcOff == s.srcOff + READ_BLOCK_SIZE && Weight(s', cell) <= Weight(s, cell) + 2)
    ensures Measure(s') < Measure(s)
  {
    WeightsUpdate(s, s', cell);
    if s'.srcOff != s.srcOff {
      var d := s.srcSize - s.srcOff;
      assert d % READ_BLOCK_SIZE == 0 && d >= READ_BLOCK_SIZE;
      assert (d - READ_BLOCK_SIZE) / READ_BLOCK_SIZE == d / READ_BLOCK_SIZE - 1;
    }
  }

  /** A finished request on a listed cell lowers the measure unless it ends the copy. */
  lemma ScanCellProgress(t: Trace, i: nat, p: Poll)
    requires Inv(t) && i < QUEUE_SIZE && t.state.waitList[i] && p.Done?
    ensures var o := ScanCell(t, i, p);
      o.Running? ==> Inv(o.trace) && Measure(o.trace.state) < Measure(t.state)
  {
    ScanCellInv(t, i, p);
    var o := ScanCell(t, i, p);
    if o.Running? {
      MeasureStep(t.state, o.trace.state, i);
    }
  }
}
