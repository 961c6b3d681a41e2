/** The io_uring copy over mutable state: CopyStatus as an object whose request
    preparation updates its counters and its block-status array in place, and the main
    procedure's priming and draining loops, proved to produce the outcome `CopyFile`
    describes. */
module IoUringCopyImpl {
  import opened Uint
  import opened IoUringCopy

  class CopyState {
    var srcFd: int
    var dstFd: int
    var srcOff: int
    var srcSize: u32
    var numBlockInProgress: u16
    var blockStatuses: array<BlockStatus>

    function State(): CopyStatus
      reads this, blockStatuses
    {
      CopyStatus(srcFd, dstFd, srcOff, srcSize, numBlockInProgress, blockStatuses[..])
    }

    predicate Valid()
      reads this
    {
      blockStatuses.Length == QUEUE_SIZE
    }

    /** `init_copying_status`, without the ring and the buffers. */
    constructor (srcSize: u32, srcFd: int, dstFd: int)
      ensures Valid() && fresh(blockStatuses)
      ensures State() == InitCopyingStatus(srcSize, srcFd, dstFd)
    {
      this.srcFd := srcFd;
      this.dstFd := dstFd;
      this.srcOff := 0;
      this.srcSize := srcSize;
      this.numBlockInProgress := 0;
      var blocks := new BlockStatus[QUEUE_SIZE];
      for i := 0 to QUEUE_SIZE
        invariant forall j :: 0 <= j < i ==> blocks[j] == BlockStatus(BlockIdle, 0, 0)
      {
        blocks[i] := BlockStatus(BlockIdle, 0, 0);
      }
      this.blockStatuses := blocks;
      new;
      assert blockStatuses[..] == seq(QUEUE_SIZE, _ => BlockStatus(BlockIdle, 0, 0));
    }

    method PrepareReadRequest(cell: nat) returns (sqes: seq<Sqe>)
      requires Valid() && cell < QUEUE_SIZE
      modifies this, blockStatuses
      ensures Valid() && blockStatuses == old(blockStatuses)
      ensures PrepareRead(old(State()), cell) == Issued(State(), sqes)
    {
      var bytesLeft := Wrap32(srcSize - srcOff);
      if bytesLeft == 0 {
        return [];
      }
      var size: u32 := if bytesLeft < READ_BLOCK_SIZE then bytesLeft else READ_BLOCK_SIZE;
      blockStatuses[cell] := BlockStatus(BlockInRead, srcOff, size);
      sqes := [Sqe(ReadFixed, srcFd, cell * READ_BLOCK_SIZE, READ_BLOCK_SIZE, srcOff, cell)];
      srcOff := srcOff + size;
      numBlockInProgress := Wrap16(numBlockInProgress + 1);
    }

    method PrepareWriteRequest(cell: nat) returns (sqes: seq<Sqe>)
      requires Valid() && cell < QUEUE_SIZE
      modifies blockStatuses
      ensures PrepareWrite(old(State()), cell) == Issued(State(), sqes)
    {
      blockStatuses[cell] := blockStatuses[cell].(stage := BlockInWrite);
      sqes := [Sqe(WriteFixed, dstFd, cell * READ_BLOCK_SIZE, READ_BLOCK_SIZE, blockStatuses[cell].offset, cell)];
    }

    method FinishWriteRequest(cell: nat)
      requires Valid() && cell < QUEUE_SIZE
      modifies this, blockStatuses
      ensures Valid() && blockStatuses == old(blockStatuses)
      ensures State() == FinishWrite(old(State()), cell)
    {
      blockStatuses[cell] := blockStatuses[cell].(stage := BlockIdle);
      numBlockInProgress := Wrap16(numBlockInProgress - 1);
    }
  }

  /** One completion of the drain loop, on the object: abort on a negative result, turn a
      finished read into a write, finish a write and read again, ignore an idle cell. */
  method HandleCompletion(status: CopyState, sqes: seq<Sqe>, written: seq<int>, c: Completion)
    returns (o: Outcome)
    requires status.Valid() && c.cell < QUEUE_SIZE
    modifies status, status.blockStatuses
    ensures status.Valid() && status.blockStatuses == old(status.blockStatuses)
    ensures o == OnCompletion(Trace(old(status.State()), sqes, written), c)
    ensures o.Running? ==> o.trace.status == status.State()
  {
    var block := status.blockStatuses[c.cell];
    if block.stage == BlockInRead {
      if c.res < 0 {
        return Aborted(ReadFixed, block.offset, Trace(status.State(), sqes, written));
      }
      var q := status.PrepareWriteRequest(c.cell);
      return Running(Trace(status.State(), sqes + q, written));
    } else if block.stage == BlockInWrite {
      if c.res < 0 {
        return Aborted(WriteFixed, block.offset, Trace(status.State(), sqes, written));
      }
      status.FinishWriteRequest(c.cell);
      var q := status.PrepareReadRequest(c.cell);
      return Running(Trace(status.State(), sqes + q, written + [block.offset]));
    }
    return Running(Trace(status.State(), sqes, written));
  }

  /** The main procedure from `init_copying_status` on: prime every cell, then, round
      after round, handle every completion that is ready, until nothing is left to read
      and nothing is in flight, a negative result aborts, or the rounds run out. */
  method Copy(srcSize: u32, srcFd: int, dstFd: int, rounds: seq<seq<Completion>>) returns (o: Outcome)
    requires RoundsFit(rounds, QUEUE_SIZE)
    ensures o == CopyFile(srcSize, srcFd, dstFd, rounds)
  {
    var status := new CopyState(srcSize, srcFd, dstFd);
    var sqes: seq<Sqe> := [];
    var written: seq<int> := [];
    for cellI := 0 to QUEUE_SIZE
      invariant status.Valid() && fresh(status.blockStatuses)
      invariant Trace(status.State(), sqes, written) == Prime(Start(srcSize, srcFd, dstFd), cellI)
    {
      var q := status.PrepareReadRequest(cellI);
      sqes := sqes + q;
    }
    var i := 0;
    while status.srcOff != status.srcSize || status.numBlockInProgress != 0
      invariant 0 <= i <= |rounds| && status.Valid() && fresh(status.blockStatuses)
      invariant Loop(Trace(status.State(), sqes, written), rounds[i..]) == CopyFile(srcSize, srcFd, dstFd, rounds)
      decreases |rounds| - i
    {
      if i == |rounds| {
        return Running(Trace(status.State(), sqes, written));
      }
      ghost var t0 := Trace(status.State(), sqes, written);
      assert rounds[i..][0] == rounds[i] && rounds[i..][1..] == rounds[i + 1..];
      var cs := rounds[i];
      var j := 0;
      while j < |cs|
        invariant 0 <= j <= |cs| && status.Valid() && fresh(status.blockStatuses)
        invariant Drain(Trace(status.State(), sqes, written), cs[j..]) == Drain(t0, cs)
      {
        assert cs[j..][0] == cs[j] && cs[j..][1..] == cs[j + 1..];
        var r := HandleCompletion(status, sqes, written, cs[j]);
        if !r.Running? {
          return r;
        }
        sqes, written := r.trace.sqes, r.trace.written;
        j := j + 1;
      }
      i := i + 1;
    }
    return Completed(Trace(status.State(), sqes, written));
  }
}
