/** The POSIX AIO copy over mutable state: the control blocks and the wait list as
    fixed-size arrays updated in place, the counters as fields, and the main procedure's
    priming loop, round loop and scan loop, proved to produce the outcome `CopyFile`
    describes.  What the copy has done so far (`log`, `written`, `lost`) is kept beside
    the source's variables. */
module PosixAioCopyImpl {
  import opened Uint
  import opened BlockMath
  import opened PosixAioCopy

  class PosixCopy {
    var srcFd: int
    var dstFd: int
    var srcSize: nat
    var srcOff: nat
    var numIoReqs: u64
    var aiocbs: array<Aiocb>
    var waitList: array<bool>
    var log: seq<Setup>
    var written: seq<int>
    var lost: seq<int>

    predicate Valid()
      reads this
    {
      aiocbs.Length == QUEUE_SIZE && waitList.Length == QUEUE_SIZE
    }

    /** The source's variables as a value. */
    function State(): PosixState
      reads this, aiocbs, waitList
      requires Valid()
    {
      PosixState(srcFd, dstFd, srcSize, srcOff, numIoReqs, aiocbs[..], waitList[..])
    }

    function Current(): Trace
      reads this, aiocbs, waitList
      requires Valid()
    {
      Trace(State(), log, written, lost)
    }

    /** The variables before priming, for the size already rounded: `calloc`ed control
        blocks and a wait list that is NULL everywhere. */
    constructor (srcFd: int, dstFd: int, srcSize: nat)
      ensures Valid() && fresh(aiocbs) && fresh(waitList)
      ensures Current() == Start(srcFd, dstFd, srcSize)
    {
      this.srcFd := srcFd;
      this.dstFd := dstFd;
      this.srcSize := srcSize;
      srcOff := 0;
      numIoReqs := 0;
      aiocbs := new Aiocb[QUEUE_SIZE](_ => AioReadSetup(0, 0, 0, 0));
      waitList := new bool[QUEUE_SIZE](_ => false);
      log, written, lost := [], [], [];
      new;
      assert aiocbs[..] == seq(QUEUE_SIZE, _ => AioReadSetup(0, 0, 0, 0));
      assert waitList[..] == seq(QUEUE_SIZE, _ => false);
    }

    /** `aio_read_setup` on control block `cell`; `accepted` is what `aio_read` answers. */
    method ReadRequest(cell: nat, fd: int, offset: int, buf: nat, size: u64, accepted: bool) returns (ok: bool)
      requires Valid() && cell < QUEUE_SIZE
      modifies this, aiocbs
      ensures Valid() && aiocbs == old(aiocbs) && waitList == old(waitList)
      ensures var o := Issue(old(Current()), cell, AioReadSetup(fd, offset, buf, size), accepted);
        ok == o.Running? && Current() == o.trace
    {
      var a := AioReadSetup(fd, offset, buf, size);
      aiocbs[cell] := a;
      if accepted {
        log := log + [Setup(cell, a)];
      }
      ok := accepted;
    }

    /** `aio_write_setup` on control block `cell`; `accepted` is what `aio_write` answers. */
    method WriteRequest(cell: nat, fd: int, offset: int, buf: nat, size: u64, accepted: bool) returns (ok: bool)
      requires Valid() && cell < QUEUE_SIZE
      modifies this, aiocbs
      ensures Valid() && aiocbs == old(aiocbs) && waitList == old(waitList)
      ensures var o := Issue(old(Current()), cell, AioWriteSetup(fd, offset, buf, size), accepted);
        ok == o.Running? && Current() == o.trace
    {
      var a := AioWriteSetup(fd, offset, buf, size);
      aiocbs[cell] := a;
      if accepted {
        log := log + [Setup(cell, a)];
      }
      ok := accepted;
    }

    /** One iteration of the priming loop, on cell `i`. */
    method PrimeCell(i: nat, accepted: bool) returns (ok: bool)
      requires Valid() && i < QUEUE_SIZE
      modifies this, aiocbs, waitList
      ensures Valid() && aiocbs == old(aiocbs) && waitList == old(waitList)
      ensures ok == accepted
      ensures ok ==> Current() == ReadNext(old(Current()), i)
      ensures !ok ==>
        Current() == Issue(old(Current()), i, AioReadSetup(srcFd, srcOff, Slice(i), READ_BLOCK_SIZE), false).trace
    {
      var off := srcOff;
      ok := ReadRequest(i, srcFd, off, Slice(i), READ_BLOCK_SIZE, accepted);
      if !ok {
        return;
      }
      ghost var w := waitList[..];
      waitList[i] := true;
      srcOff := off + READ_BLOCK_SIZE;
      numIoReqs := ToSizeT(numIoReqs + 1);
      assert waitList[..] == w[i := true];
    }

    /** The priming loop; `accepts[i]` is what `aio_read` answers for cell `i`. */
    method Prime(accepts: seq<bool>) returns (ok: bool)
      requires Valid() && |accepts| == QUEUE_SIZE
      modifies this, aiocbs, waitList
      ensures Valid() && aiocbs == old(aiocbs) && waitList == old(waitList)
      ensures var o := PrimeFrom(old(Current()), 0, accepts);
        ok == o.Running? && Current() == o.trace
    {
      var i := 0;
      while i < QUEUE_SIZE && srcOff < srcSize
        invariant 0 <= i <= QUEUE_SIZE && Valid() && aiocbs == old(aiocbs) && waitList == old(waitList)
        invariant PrimeFrom(Current(), i, accepts) == PrimeFrom(old(Current()), 0, accepts)
        decreases QUEUE_SIZE - i
      {
        PrimeUnfold(Current(), i, accepts);
        ok := PrimeCell(i, accepts[i]);
        if !ok {
          return;
        }
        i := i + 1;
      }
      ok := true;
    }

    /** One iteration of the scan loop, on cell `i` with the library's answer `p`. */
    method VisitCell(i: nat, p: Poll) returns (ok: bool)
      requires Valid() && i < QUEUE_SIZE
      modifies this, aiocbs, waitList
      ensures Valid() && aiocbs == old(aiocbs) && waitList == old(waitList)
      ensures var o := ScanCell(old(Current()), i, p);
        ok == o.Running? && Current() == o.trace
    {
      if !waitList[i] || p.Pending? {
        return true;
      }
      var a := aiocbs[i];
      var io: int := numIoReqs;
      ghost var w := waitList[..];
      if a.kind == Read {
        if p.ret != 0 {
          ok := WriteRequest(i, dstFd, a.offset, Slice(i), ToSizeT(p.ret), p.accepted);
        } else {
          waitList[i] := false;
          assert waitList[..] == w[i := false];
          numIoReqs := ToSizeT(io - 1);
          lost := lost + [a.offset];
          ok := true;
        }
      } else {
        if p.ret != 0 && srcOff < srcSize {
          written := written + [a.offset];
          var off := srcOff;
          ok := ReadRequest(i, srcFd, off, Slice(i), READ_BLOCK_SIZE, p.accepted);
          if ok {
            srcOff := off + READ_BLOCK_SIZE;
          }
        } else {
          waitList[i] := false;
          assert waitList[..] == w[i := false];
          numIoReqs := ToSizeT(io - 1);
          if p.ret != 0 {
            written := written + [a.offset];
          } else {
            lost := lost + [a.offset];
          }
          ok := true;
        }
      }
    }

    /** The scan of the whole wait list after `aio_suspend` returns. */
    method ScanWaitList(polls: seq<Poll>) returns (ok: bool)
      requires Valid() && |polls| == QUEUE_SIZE
      modifies this, aiocbs, waitList
      ensures Valid() && aiocbs == old(aiocbs) && waitList == old(waitList)
      ensures var o := ScanFrom(old(Current()), polls, 0);
        ok == o.Running? && Current() == o.trace
    {
      for i := 0 to QUEUE_SIZE
        invariant Valid() && aiocbs == old(aiocbs) && waitList == old(waitList)
        invariant ScanFrom(Current(), polls, i) == ScanFrom(old(Current()), polls, 0)
      {
        ok := VisitCell(i, polls[i]);
        if !ok {
          return;
        }
      }
      ok := true;
    }
  }

  /** `while (num_io_reqs != 0)`: wait, then scan, round after round. */
  method RunLoop(st: PosixCopy, rounds: seq<Round>) returns (o: Outcome)
    requires st.Valid() && RoundsFit(rounds)
    modifies st, st.aiocbs, st.waitList
    ensures o == Loop(old(st.Current()), rounds)
  {
    var k := 0;
    while st.numIoReqs != 0
      invariant 0 <= k <= |rounds| && st.Valid() && st.aiocbs == old(st.aiocbs) && st.waitList == old(st.waitList)
      invariant Loop(st.Current(), rounds[k..]) == Loop(old(st.Current()), rounds)
      decreases |rounds| - k
    {
      if k == |rounds| {
        return Running(st.Current());
      }
      assert rounds[k..][0] == rounds[k] && rounds[k..][1..] == rounds[k + 1..];
      if rounds[k].SuspendFailed? {
        return Aborted(SuspendError, st.Current());
      }
      var ok := st.ScanWaitList(rounds[k].polls);
      if !ok {
        return Aborted(RequestRejected, st.Current());
      }
      k := k + 1;
    }
    return Completed(st.Current());
  }

  /** The main procedure from the rounding on: round the size up to whole blocks, prime
      up to QUEUE_SIZE reads, then wait and scan the wait list, until no request is
      listed, a request is rejected, `aio_suspend` fails, or the rounds run out. */
  method Copy(srcSize: u32, srcFd: int, dstFd: int, accepts: seq<bool>, rounds: seq<Round>) returns (o: Outcome)
    requires |accepts| == QUEUE_SIZE && RoundsFit(rounds)
    ensures o == CopyFile(srcSize, srcFd, dstFd, accepts, rounds)
  {
    var rounded := RoundUp(srcSize, READ_BLOCK_SIZE);
    var st := new PosixCopy(srcFd, dstFd, rounded);
    ghost var p := PrimeFrom(Start(srcFd, dstFd, rounded), 0, accepts);
    var ok := st.Prime(accepts);
    if !ok {
      return Aborted(RequestRejected, st.Current());
    }
    o := RunLoop(st, rounds);
  }
}
