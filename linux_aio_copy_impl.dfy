/** The Linux AIO copy over mutable state: the control blocks and the submit list as
    fixed-size arrays updated in place, the counters as fields, and the main procedure's
    priming loop, round loop and event loop, proved to produce the outcome `CopyFile`
    describes.  The kernel's view of each control block (`stages`) and what the copy has
    done so far (`log`, `written`, `lost`) are kept beside the source's variables. */
module LinuxAioCopyImpl {
  import opened Uint
  import opened BlockMath
  import opened LinuxAioCopy

  class AioCopy {
    var srcFd: int
    var dstFd: int
    var srcSize: nat
    var srcOff: nat
    var numIoReqs: u64
    var iocbs: array<Iocb>
    var submitList: array<nat>
    var numToSubmit: nat
    var stages: seq<CellStage>
    var log: seq<Setup>
    var written: seq<int>
    var lost: seq<int>

    predicate Valid()
      reads this
    {
      iocbs.Length == QUEUE_SIZE && submitList.Length == QUEUE_SIZE && numToSubmit <= QUEUE_SIZE
      && |stages| == QUEUE_SIZE
    }

    /** The source's variables as a value; the submit list is its first `num_to_submit`
        entries. */
    function State(): AioState
      reads this, iocbs, submitList
      requires Valid()
    {
      AioState(srcFd, dstFd, srcSize, srcOff, numIoReqs, iocbs[..], submitList[..numToSubmit], stages)
    }

    function Current(): Trace
      reads this, iocbs, submitList
      requires Valid()
    {
      Trace(State(), log, written, lost)
    }

    /** The variables before priming, for the size already rounded; `submit_list` starts
        out NULL everywhere. */
    constructor (srcFd: int, dstFd: int, srcSize: nat)
      ensures Valid() && fresh(iocbs) && fresh(submitList)
      ensures Current() == Start(srcFd, dstFd, srcSize)
    {
      this.srcFd := srcFd;
      this.dstFd := dstFd;
      this.srcSize := srcSize;
      srcOff := 0;
      numIoReqs := 0;
      iocbs := new Iocb[QUEUE_SIZE](_ => IoReadSetup(0, 0, 0, 0));
      submitList := new nat[QUEUE_SIZE](_ => 0);
      numToSubmit := 0;
      stages := seq(QUEUE_SIZE, _ => Free);
      log, written, lost := [], [], [];
      new;
      assert iocbs[..] == seq(QUEUE_SIZE, _ => IoReadSetup(0, 0, 0, 0));
    }

    /** Set up `a` in control block `cell` and register it in the submit list. */
    method Register(cell: nat, a: Iocb)
      requires Valid() && cell < QUEUE_SIZE && numToSubmit < QUEUE_SIZE
      modifies this, iocbs, submitList
      ensures Valid() && iocbs == old(iocbs) && submitList == old(submitList)
      ensures Current() == Enqueue(old(Current()), cell, a) && numToSubmit == old(numToSubmit) + 1
    {
      iocbs[cell] := a;
      submitList[numToSubmit] := cell;
      numToSubmit := numToSubmit + 1;
      stages := stages[cell := Queued];
      log := log + [Setup(cell, a)];
      assert submitList[..numToSubmit] == old(submitList[..numToSubmit]) + [cell];
    }

    /** One iteration of the priming loop. */
    method PrimeRead(i: nat)
      requires Valid() && i < QUEUE_SIZE && numToSubmit < QUEUE_SIZE
      modifies this, iocbs, submitList
      ensures Valid() && iocbs == old(iocbs) && submitList == old(submitList)
      ensures Current() == PrimeCell(old(Current()), i) && numToSubmit == old(numToSubmit) + 1
    {
      Register(i, IoReadSetup(srcFd, srcOff, Slice(i), READ_BLOCK_SIZE));
      srcOff := srcOff + READ_BLOCK_SIZE;
      numIoReqs := ToSizeT(numIoReqs + 1);
    }

    /** `io_submit`: the kernel takes every registered control block. */
    method SubmitAll()
      requires Valid()
      modifies this
      ensures Valid() && iocbs == old(iocbs) && submitList == old(submitList)
      ensures Current() == old(Current()).(state := Submit(old(State())))
    {
      stages := Promote(stages);
    }

    /** `num_to_submit = 0`. */
    method ClearSubmitList()
      requires Valid()
      modifies this
      ensures Valid() && iocbs == old(iocbs) && submitList == old(submitList)
      ensures Current() == old(Current()).(state := old(State()).(submitList := []))
    {
      numToSubmit := 0;
    }

    /** One finished event: re-arm its control block according to its opcode. */
    method OnEvent(ev: Event)
      requires Valid() && ev.cell < QUEUE_SIZE && numToSubmit < QUEUE_SIZE
      modifies this, iocbs, submitList
      ensures Valid() && iocbs == old(iocbs) && submitList == old(submitList)
      ensures Current() == HandleEvent(old(Current()), ev)
    {
      if stages[ev.cell] != InFlight {
        return;
      }
      if iocbs[ev.cell].opcode == PRead {
        OnReadEvent(ev);
      } else {
        OnWriteEvent(ev);
      }
    }

    /** A finished read: write what it read, or give the block up if it read nothing. */
    method OnReadEvent(ev: Event)
      requires Valid() && ev.cell < QUEUE_SIZE && numToSubmit < QUEUE_SIZE
      requires stages[ev.cell] == InFlight && iocbs[ev.cell].opcode == PRead
      modifies this, iocbs, submitList
      ensures Valid() && iocbs == old(iocbs) && submitList == old(submitList)
      ensures Current() == HandleEvent(old(Current()), ev)
    {
      var c := ev.cell;
      var a := iocbs[c];
      var io: int := numIoReqs;
      ghost var t := Current();
      stages := stages[c := Free];
      assert Current() == t.(state := t.state.(stages := t.state.stages[c := Free]));
      if ev.res != 0 {
        Register(c, IoWriteSetup(dstFd, a.offset, a.buf, ToSizeT(ev.res)));
      } else {
        numIoReqs := ToSizeT(io - 1);
        lost := lost + [a.offset];
      }
    }

    /** A finished write: read the next block into the same buffer while data remains,
        otherwise retire the control block. */
    method OnWriteEvent(ev: Event)
      requires Valid() && ev.cell < QUEUE_SIZE && numToSubmit < QUEUE_SIZE
      requires stages[ev.cell] == InFlight && iocbs[ev.cell].opcode != PRead
      modifies this, iocbs, submitList
      ensures Valid() && iocbs == old(iocbs) && submitList == old(submitList)
      ensures Current() == HandleEvent(old(Current()), ev)
    {
      var c := ev.cell;
      var a := iocbs[c];
      var io: int := numIoReqs;
      ghost var t := Current();
      stages := stages[c := Free];
      if ev.res != 0 && srcOff < srcSize {
        written := written + [a.offset];
        assert Current() == t.(state := t.state.(stages := t.state.stages[c := Free]), written := t.written + [a.offset]);
        var off := srcOff;
        Register(c, IoReadSetup(srcFd, off, a.buf, READ_BLOCK_SIZE));
        srcOff := off + READ_BLOCK_SIZE;
      } else {
        numIoReqs := ToSizeT(io - 1);
        if ev.res != 0 {
          written := written + [a.offset];
        } else {
          lost := lost + [a.offset];
        }
      }
    }

    /** The priming loop: a read per control block from the first, while the rounded
        file has data left. */
    method Prime()
      requires Valid() && numToSubmit == 0
      modifies this, iocbs, submitList
      ensures Valid() && iocbs == old(iocbs) && submitList == old(submitList)
      ensures Current() == PrimeFrom(old(Current()), 0)
    {
      var i := 0;
      while i < QUEUE_SIZE && srcOff < srcSize
        invariant 0 <= i <= QUEUE_SIZE && Valid() && iocbs == old(iocbs) && submitList == old(submitList)
        invariant numToSubmit == i
        invariant PrimeFrom(Current(), i) == PrimeFrom(old(Current()), 0)
        decreases QUEUE_SIZE - i
      {
        PrimeRead(i);
        i := i + 1;
      }
    }

    /** The event-handling loop, after the submit list is cleared. */
    method OnEvents(evs: seq<Event>)
      requires Valid() && numToSubmit == 0 && EventsFit(evs)
      modifies this, iocbs, submitList
      ensures Valid() && iocbs == old(iocbs) && submitList == old(submitList)
      ensures Current() == HandleEvents(old(Current()), evs)
    {
      var j := 0;
      while j < |evs|
        invariant 0 <= j <= |evs| && Valid() && iocbs == old(iocbs) && submitList == old(submitList)
        invariant numToSubmit <= j
        invariant HandleEvents(Current(), evs[j..]) == HandleEvents(old(Current()), evs)
      {
        assert evs[j..][0] == evs[j] && evs[j..][1..] == evs[j + 1..];
        OnEvent(evs[j]);
        j := j + 1;
      }
      assert evs[j..] == [];
    }
  }

  /** The main procedure from the rounding on: round the size up to whole blocks, prime
      up to QUEUE_SIZE reads, then submit, wait for events and handle them, until no
      request is active, a kernel call fails, or the rounds run out. */
  method Copy(srcSize: u32, srcFd: int, dstFd: int, rounds: seq<Round>) returns (o: Outcome)
    requires RoundsFit(rounds)
    ensures o == CopyFile(srcSize, srcFd, dstFd, rounds)
  {
    var st := new AioCopy(srcFd, dstFd, RoundUp(srcSize, READ_BLOCK_SIZE));
    st.Prime();
    var k := 0;
    while st.numIoReqs != 0
      invariant 0 <= k <= |rounds| && st.Valid() && fresh(st.iocbs) && fresh(st.submitList)
      invariant Loop(st.Current(), rounds[k..]) == CopyFile(srcSize, srcFd, dstFd, rounds)
      decreases |rounds| - k
    {
      if k == |rounds| {
        return Running(st.Current());
      }
      assert rounds[k..][0] == rounds[k] && rounds[k..][1..] == rounds[k + 1..];
      if rounds[k].SubmitFailed? {
        return Aborted(SubmitError, st.Current());
      }
      st.SubmitAll();
      if rounds[k].GetEventsFailed? {
        return Aborted(GetEventsError, st.Current());
      }
      st.ClearSubmitList();
      st.OnEvents(rounds[k].evs);
      k := k + 1;
    }
    return Completed(st.Current());
  }
}
