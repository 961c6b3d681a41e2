/** The io_uring copy: a window of QUEUE_SIZE cells, each owning one fixed buffer, that
    reads the source block by block at an advancing cursor, turns every completed read
    into a write of the same range from the same buffer, and turns every completed write
    into the next read.  Completions are inputs; submission queue entries are outputs. */
module IoUringCopy {
  import opened Uint

  const READ_BLOCK_SIZE: nat := 8192
  const QUEUE_SIZE: nat := 64

  datatype BlockStage = BlockIdle | BlockInRead | BlockInWrite

  datatype BlockStatus = BlockStatus(stage: BlockStage, offset: int, size: u32)

  /** CopyStatus without the ring and the buffers themselves. */
  datatype CopyStatus = CopyStatus(
    srcFd: int, dstFd: int, srcOff: int, srcSize: u32,
    numBlockInProgress: u16, blocks: seq<BlockStatus>)

  datatype Op = ReadFixed | WriteFixed

  /** A submission queue entry: operation, file, buffer address (relative to the aligned
      buffer area), length, file offset, and the cell, which is both the registered buffer
      index and the user data returned with the completion. */
  datatype Sqe = Sqe(op: Op, fd: int, buf: nat, len: nat, offset: int, cell: nat)

  /** A completion queue entry: the user data (a cell) and the result code. */
  datatype Completion = Completion(cell: nat, res: int)

  /** A new status and the entries it queued (none or one). */
  datatype Issued = Issued(status: CopyStatus, sqes: seq<Sqe>)

  /** The status, every entry submitted so far in order, and the offsets of the blocks
      whose write completed, in completion order. */
  datatype Trace = Trace(status: CopyStatus, sqes: seq<Sqe>, written: seq<int>)

  /** `Running`: the loop is still going when the completions given run out. */
  datatype Outcome =
    | Running(trace: Trace)
    | Aborted(op: Op, offset: int, trace: Trace)
    | Completed(trace: Trace)

  function Min(a: int, b: int): int
  {
    if a < b then a else b
  }

  // ---------------------------------------------------------------------------
  // Counting cells
  // ---------------------------------------------------------------------------

  function Count(bs: seq<BlockStatus>, st: BlockStage): (n: nat)
    ensures n <= |bs|
  {
    if bs == [] then 0 else (if bs[0].stage == st then 1 else 0) + Count(bs[1..], st)
  }

  /** The cells with a request in flight. */
  function Busy(bs: seq<BlockStatus>): nat
  {
    Count(bs, BlockInRead) + Count(bs, BlockInWrite)
  }

  lemma {:induction false} CountUpdate(bs: seq<BlockStatus>, i: nat, b: BlockStatus, st: BlockStage)
    requires i < |bs|
    ensures Count(bs[i := b], st)
            == Count(bs, st) - (if bs[i].stage == st then 1 else 0) + (if b.stage == st then 1 else 0)
  {
    if i == 0 {
      assert bs[i := b][1..] == bs[1..];
    } else {
      assert bs[i := b][1..] == bs[1..][i - 1 := b];
      CountUpdate(bs[1..], i - 1, b, st);
    }
  }

  lemma {:induction false} CountStages(bs: seq<BlockStatus>)
    ensures Count(bs, BlockIdle) + Count(bs, BlockInRead) + Count(bs, BlockInWrite) == |bs|
  {
    if bs != [] { CountStages(bs[1..]); }
  }

  lemma {:induction false} CountZero(bs: seq<BlockStatus>, st: BlockStage, i: nat)
    requires Count(bs, st) == 0 && i < |bs|
    ensures bs[i].stage != st
  {
    if i > 0 { CountZero(bs[1..], st, i - 1); }
  }

  lemma {:induction false} CountAll(bs: seq<BlockStatus>, st: BlockStage)
    requires forall i :: 0 <= i < |bs| ==> bs[i].stage == st
    ensures Count(bs, st) == |bs|
  {
    if bs != [] { CountAll(bs[1..], st); }
  }

  // ---------------------------------------------------------------------------
  // The operations
  // ---------------------------------------------------------------------------

  /** The counter and array part of `init_copying_status`. */
  function InitCopyingStatus(srcSize: u32, srcFd: int, dstFd: int): (s: CopyStatus)
    ensures |s.blocks| == QUEUE_SIZE
    ensures forall i :: 0 <= i < QUEUE_SIZE ==> s.blocks[i] == BlockStatus(BlockIdle, 0, 0)
    ensures s.srcOff == 0 && s.numBlockInProgress == 0 && s.srcSize == srcSize
    ensures s.srcFd == srcFd && s.dstFd == dstFd
  {
    CopyStatus(srcFd, dstFd, 0, srcSize, 0, seq(QUEUE_SIZE, _ => BlockStatus(BlockIdle, 0, 0)))
  }

  /** `prepare_read_request`: nothing when no byte is left (in uint32_t arithmetic);
      otherwise the cell reads the next block, at most READ_BLOCK_SIZE bytes, at the
      cursor, and the cursor and the in-progress count advance. */
  function PrepareRead(s: CopyStatus, cell: nat): (r: Issued)
    requires cell < |s.blocks|
    ensures |r.status.blocks| == |s.blocks| && r.status.srcSize == s.srcSize
    ensures r.status.srcFd == s.srcFd && r.status.dstFd == s.dstFd
    ensures forall i :: 0 <= i < |s.blocks| && i != cell ==> r.status.blocks[i] == s.blocks[i]
    ensures |r.sqes| <= 1
    ensures 0 <= s.srcOff <= s.srcSize ==>
      && (r.sqes == [] <==> s.srcOff == s.srcSize)
      && (r.sqes == [] ==> r.status == s)
      && (r.sqes != [] ==>
            && r.status.blocks[cell] == BlockStatus(BlockInRead, s.srcOff, Min(s.srcSize - s.srcOff, READ_BLOCK_SIZE))
            && r.status.srcOff == s.srcOff + r.status.blocks[cell].size <= s.srcSize
            && r.status.numBlockInProgress == Wrap16(s.numBlockInProgress + 1)
            && r.sqes == [Sqe(ReadFixed, s.srcFd, cell * READ_BLOCK_SIZE, READ_BLOCK_SIZE, s.srcOff, cell)])
  {
    var bytesLeft := Wrap32(s.srcSize - s.srcOff);
    if bytesLeft == 0 then Issued(s, [])
    else
      var size: u32 := if bytesLeft < READ_BLOCK_SIZE then bytesLeft else READ_BLOCK_SIZE;
      var block := BlockStatus(BlockInRead, s.srcOff, size);
      Issued(s.(blocks := s.blocks[cell := block],
                srcOff := s.srcOff + size,
                numBlockInProgress := Wrap16(s.numBlockInProgress + 1)),
             [Sqe(ReadFixed, s.srcFd, cell * READ_BLOCK_SIZE, READ_BLOCK_SIZE, s.srcOff, cell)])
  }

  /** `prepare_write_request`: only the stage changes; the write covers the block's offset
      from the same fixed buffer, with the full READ_BLOCK_SIZE as its length. */
  function PrepareWrite(s: CopyStatus, cell: nat): (r: Issued)
    requires cell < |s.blocks|
    ensures |r.status.blocks| == |s.blocks| && r.status.(blocks := s.blocks) == s
    ensures r.status.blocks[cell] == BlockStatus(BlockInWrite, s.blocks[cell].offset, s.blocks[cell].size)
    ensures forall i :: 0 <= i < |s.blocks| && i != cell ==> r.status.blocks[i] == s.blocks[i]
    ensures r.sqes == [Sqe(WriteFixed, s.dstFd, cell * READ_BLOCK_SIZE, READ_BLOCK_SIZE, s.blocks[cell].offset, cell)]
  {
    var block := s.blocks[cell].(stage := BlockInWrite);
    Issued(s.(blocks := s.blocks[cell := block]),
           [Sqe(WriteFixed, s.dstFd, cell * READ_BLOCK_SIZE, READ_BLOCK_SIZE, block.offset, cell)])
  }

  /** `finish_write_request`: the cell goes idle and the in-progress count drops. */
  function FinishWrite(s: CopyStatus, cell: nat): (r: CopyStatus)
    requires cell < |s.blocks|
    ensures |r.blocks| == |s.blocks| && r.blocks[cell] == s.blocks[cell].(stage := BlockIdle)
    ensures forall i :: 0 <= i < |s.blocks| && i != cell ==> r.blocks[i] == s.blocks[i]
    ensures r.numBlockInProgress == Wrap16(s.numBlockInProgress - 1)
    ensures r.(blocks := s.blocks, numBlockInProgress := s.numBlockInProgress) == s
  {
    s.(blocks := s.blocks[cell := s.blocks[cell].(stage := BlockIdle)],
       numBlockInProgress := Wrap16(s.numBlockInProgress - 1))
  }

  /** One completion of the drain loop: a negative result on a reading or writing cell
      aborts, reporting the block's offset; a completed read becomes the write; a
      completed write finishes and the cell reads again; an idle cell is ignored. */
  function OnCompletion(t: Trace, c: Completion): (o: Outcome)
    requires c.cell < |t.status.blocks|
    ensures o.Completed? == false
    ensures o.Running? ==> |o.trace.status.blocks| == |t.status.blocks|
    ensures var b := t.status.blocks[c.cell];
      && (b.stage == BlockIdle ==> o == Running(t))
      && (o.Aborted? <==> b.stage != BlockIdle && c.res < 0)
      && (o.Aborted? ==>
            o == Aborted(if b.stage == BlockInRead then ReadFixed else WriteFixed, b.offset, t))
  {
    var s := t.status;
    var block := s.blocks[c.cell];
    match block.stage
    case BlockInRead =>
      if c.res < 0 then Aborted(ReadFixed, block.offset, t)
      else
        var w := PrepareWrite(s, c.cell);
        Running(Trace(w.status, t.sqes + w.sqes, t.written))
    case BlockInWrite =>
      if c.res < 0 then Aborted(WriteFixed, block.offset, t)
      else
        var r := PrepareRead(FinishWrite(s, c.cell), c.cell);
        Running(Trace(r.status, t.sqes + r.sqes, t.written + [block.offset]))
    case BlockIdle => Running(t)
  }

  predicate CellsFit(cs: seq<Completion>, n: nat)
  {
    forall j :: 0 <= j < |cs| ==> cs[j].cell < n
  }

  /** Every completion available after one `io_uring_submit_and_wait`. */
  function Drain(t: Trace, cs: seq<Completion>): (o: Outcome)
    requires CellsFit(cs, |t.status.blocks|)
    ensures o.Completed? == false
    ensures o.Running? ==> |o.trace.status.blocks| == |t.status.blocks|
    ensures (forall j :: 0 <= j < |cs| ==> cs[j].res >= 0) ==> o.Running?
    decreases |cs|
  {
    if cs == [] then Running(t)
    else
      var o := OnCompletion(t, cs[0]);
      if o.Running? then Drain(o.trace, cs[1..]) else o
  }

  /** The condition of the main `while` loop. */
  predicate InProgress(s: CopyStatus)
  {
    s.srcOff != s.srcSize || s.numBlockInProgress != 0
  }

  predicate RoundsFit(rounds: seq<seq<Completion>>, n: nat)
  {
    forall i :: 0 <= i < |rounds| ==> CellsFit(rounds[i], n)
  }

  /** No completion in any round reports an error. */
  predicate NoNegative(rounds: seq<seq<Completion>>)
  {
    forall i, j :: 0 <= i < |rounds| && 0 <= j < |rounds[i]| ==> rounds[i][j].res >= 0
  }

  /** The main loop, one round of completions per iteration. */
  function Loop(t: Trace, rounds: seq<seq<Completion>>): (o: Outcome)
    requires RoundsFit(rounds, |t.status.blocks|)
    ensures o.Completed? ==> !InProgress(o.trace.status)
    ensures NoNegative(rounds) ==> !o.Aborted?
    decreases |rounds|
  {
    if !InProgress(t.status) then Completed(t)
    else if rounds == [] then Running(t)
    else
      var o := Drain(t, rounds[0]);
      if o.Running? then Loop(o.trace, rounds[1..]) else o
  }

  /** One read request into `cell`, logged. */
  function IssueRead(t: Trace, cell: nat): (r: Trace)
    requires cell < |t.status.blocks|
    ensures |r.status.blocks| == |t.status.blocks|
    ensures r.written == t.written && |t.sqes| <= |r.sqes| <= |t.sqes| + 1 && r.sqes[..|t.sqes|] == t.sqes
  {
    var r := PrepareRead(t.status, cell);
    Trace(r.status, t.sqes + r.sqes, t.written)
  }

  /** The priming loop over cells `0 .. n-1`. */
  function Prime(t: Trace, n: nat): (r: Trace)
    requires n <= |t.status.blocks|
    ensures |r.status.blocks| == |t.status.blocks|
    ensures r.written == t.written && |t.sqes| <= |r.sqes| <= |t.sqes| + n && r.sqes[..|t.sqes|] == t.sqes
  {
    if n == 0 then t else IssueRead(Prime(t, n - 1), n - 1)
  }

  function Start(srcSize: u32, srcFd: int, dstFd: int): Trace
  {
    Trace(InitCopyingStatus(srcSize, srcFd, dstFd), [], [])
  }

  /** The whole copy: initialise, prime every cell, then loop over the rounds. */
  function CopyFile(srcSize: u32, srcFd: int, dstFd: int, rounds: seq<seq<Completion>>): (o: Outcome)
    requires RoundsFit(rounds, QUEUE_SIZE)
    ensures o.Completed? ==> !InProgress(o.trace.status)
    ensures NoNegative(rounds) ==> !o.Aborted?
  {
    Loop(Prime(Start(srcSize, srcFd, dstFd), QUEUE_SIZE), rounds)
  }

  // ---------------------------------------------------------------------------
  // The invariant
  // ---------------------------------------------------------------------------

  /** The submissions of one operation, in order. */
  function OfOp(log: seq<Sqe>, op: Op): (r: seq<Sqe>)
    ensures |r| <= |log|
  {
    if log == [] then []
    else OfOp(log[..|log| - 1], op) + (if log[|log| - 1].op == op then [log[|log| - 1]] else [])
  }

  lemma OfOpAppend(log: seq<Sqe>, x: Sqe, op: Op)
    ensures OfOp(log + [x], op) == OfOp(log, op) + (if x.op == op then [x] else [])
  {
    assert (log + [x])[..|log|] == log;
  }

  /** The counters agree with the cells. */
  predicate Counters(s: CopyStatus)
  {
    && |s.blocks| == QUEUE_SIZE
    && 0 <= s.srcOff <= s.srcSize
    && s.numBlockInProgress == Busy(s.blocks)
  }

  /** The k-th read is a READ_BLOCK_SIZE read at `k * READ_BLOCK_SIZE` into its cell's buffer,
      every read starts below the end of the file, and the cursor is where the reads end. */
  predicate ReadsTile(s: CopyStatus, rds: seq<Sqe>)
  {
    && s.srcOff == Min(|rds| * READ_BLOCK_SIZE, s.srcSize)
    && (|rds| == 0 || (|rds| - 1) * READ_BLOCK_SIZE < s.srcSize)
    && forall k :: 0 <= k < |rds| ==>
         && rds[k].cell < QUEUE_SIZE
         && rds[k] == Sqe(ReadFixed, s.srcFd, rds[k].cell * READ_BLOCK_SIZE, READ_BLOCK_SIZE,
                            k * READ_BLOCK_SIZE, rds[k].cell)
  }

  /** A busy cell holds the block its own latest read fetched, sized to the file. */
  predicate CellsFromReads(s: CopyStatus, rds: seq<Sqe>)
  {
    forall c :: 0 <= c < |s.blocks| && s.blocks[c].stage != BlockIdle ==>
      var o := s.blocks[c].offset;
      && 0 <= o < s.srcOff && o % READ_BLOCK_SIZE == 0
      && o / READ_BLOCK_SIZE < |rds| && rds[o / READ_BLOCK_SIZE].cell == c
      && s.blocks[c].size == Min(READ_BLOCK_SIZE, s.srcSize - o)
  }

  /** Every write goes to the destination at the offset of a read by the same cell,
      from that cell's buffer. */
  predicate WritesFromReads(s: CopyStatus, rds: seq<Sqe>, writes: seq<Sqe>)
  {
    forall j :: 0 <= j < |writes| ==>
      var w := writes[j];
      && w.fd == s.dstFd && w.len == READ_BLOCK_SIZE && w.buf == w.cell * READ_BLOCK_SIZE
      && 0 <= w.offset && w.offset % READ_BLOCK_SIZE == 0
      && w.offset / READ_BLOCK_SIZE < |rds| && rds[w.offset / READ_BLOCK_SIZE].cell == w.cell
  }

  /** Every block read so far has been written, or is still held by the cell that read it. */
  predicate ReadsAccounted(s: CopyStatus, rds: seq<Sqe>, written: seq<int>)
  {
    forall k :: 0 <= k < |rds| ==>
      || k * READ_BLOCK_SIZE in written
      || (var c := rds[k].cell;
          c < |s.blocks| && s.blocks[c].stage != BlockIdle && s.blocks[c].offset == k * READ_BLOCK_SIZE)
  }

  predicate Inv(t: Trace)
  {
    var s, rds := t.status, OfOp(t.sqes, ReadFixed);
    && Counters(s)
    && ReadsTile(s, rds)
    && CellsFromReads(s, rds)
    && WritesFromReads(s, rds, OfOp(t.sqes, WriteFixed))
    && ReadsAccounted(s, rds, t.written)
  }

  /** While data remains, no cell is idle. */
  predicate Saturated(s: CopyStatus)
  {
    s.srcOff < s.srcSize ==> forall c :: 0 <= c < |s.blocks| ==> s.blocks[c].stage != BlockIdle
  }

  // ---------------------------------------------------------------------------
  // Each operation keeps the invariant
  // ---------------------------------------------------------------------------

  lemma InitInv(srcSize: u32, srcFd: int, dstFd: int)
    ensures Inv(Start(srcSize, srcFd, dstFd))
  {
    var s := InitCopyingStatus(srcSize, srcFd, dstFd);
    CountAll(s.blocks, BlockIdle);
    CountStages(s.blocks);
  }

  /** Storing `b` in `cell` moves the busy count by the change in its stage. */
  lemma BusyUpdate(bs: seq<BlockStatus>, cell: nat, b: BlockStatus)
    requires cell < |bs|
    ensures Busy(bs[cell := b]) == Busy(bs) - (if bs[cell].stage == BlockIdle then 0 else 1)
                                            + (if b.stage == BlockIdle then 0 else 1)
  {
    CountUpdate(bs, cell, b, BlockInRead);
    CountUpdate(bs, cell, b, BlockInWrite);
  }

  /** Busy cells never outnumber the cells. */
  lemma BusyBound(bs: seq<BlockStatus>)
    ensures Busy(bs) <= |bs|
  {
    CountStages(bs);
  }

  /** The block a read into an idle cell stores. */
  predicate NextBlock(s: CopyStatus, b: BlockStatus)
  {
    b.stage == BlockInRead && b.offset == s.srcOff && b.size == Min(s.srcSize - s.srcOff, READ_BLOCK_SIZE)
  }

  lemma CellsFromReadsRead(s: CopyStatus, s': CopyStatus, rds: seq<Sqe>, x: Sqe, cell: nat, b: BlockStatus)
    requires CellsFromReads(s, rds) && cell < |s.blocks| && s.blocks[cell].stage == BlockIdle
    requires s.srcOff == |rds| * READ_BLOCK_SIZE
    requires s'.srcSize == s.srcSize && s'.srcOff > s.srcOff && x.cell == cell
    requires NextBlock(s, b) && s'.blocks == s.blocks[cell := b]
    ensures CellsFromReads(s', rds + [x])
  {
    var rds' := rds + [x];
    forall c | 0 <= c < |s'.blocks| && s'.blocks[c].stage != BlockIdle
      ensures var o := s'.blocks[c].offset;
        && 0 <= o < s'.srcOff && o % READ_BLOCK_SIZE == 0
        && o / READ_BLOCK_SIZE < |rds'| && rds'[o / READ_BLOCK_SIZE].cell == c
        && s'.blocks[c].size == Min(READ_BLOCK_SIZE, s'.srcSize - o)
    {
      if c == cell {
        assert (|rds| * READ_BLOCK_SIZE) / READ_BLOCK_SIZE == |rds|;
      } else {
        assert rds'[s.blocks[c].offset / READ_BLOCK_SIZE] == rds[s.blocks[c].offset / READ_BLOCK_SIZE];
      }
    }
  }

  lemma WritesFromMoreReads(s: CopyStatus, s': CopyStatus, rds: seq<Sqe>, x: Sqe, writes: seq<Sqe>)
    requires WritesFromReads(s, rds, writes) && s'.dstFd == s.dstFd
    ensures WritesFromReads(s', rds + [x], writes)
  {
    forall j | 0 <= j < |writes|
      ensures (rds + [x])[writes[j].offset / READ_BLOCK_SIZE].cell == writes[j].cell
    {
      assert (rds + [x])[writes[j].offset / READ_BLOCK_SIZE] == rds[writes[j].offset / READ_BLOCK_SIZE];
    }
  }

  lemma ReadsAccountedRead(s: CopyStatus, s': CopyStatus, rds: seq<Sqe>, x: Sqe, cell: nat, b: BlockStatus, written: seq<int>)
    requires ReadsAccounted(s, rds, written) && cell < |s.blocks| && s.blocks[cell].stage == BlockIdle
    requires s.srcOff == |rds| * READ_BLOCK_SIZE && x.cell == cell
    requires NextBlock(s, b) && s'.blocks == s.blocks[cell := b]
    ensures ReadsAccounted(s', rds + [x], written)
  {
    var rds' := rds + [x];
    forall k | 0 <= k < |rds'|
      ensures || k * READ_BLOCK_SIZE in written
              || (var c := rds'[k].cell;
                  c < |s'.blocks| && s'.blocks[c].stage != BlockIdle && s'.blocks[c].offset == k * READ_BLOCK_SIZE)
    {
      if k < |rds| {
        assert rds'[k] == rds[k];
      }
    }
  }

  /** A read into an idle cell keeps the invariant; it queues a read exactly when data
      remains, and the cursor never moves back. */
  lemma IssueReadInv(t: Trace, cell: nat)
    requires Inv(t) && cell < QUEUE_SIZE && t.status.blocks[cell].stage == BlockIdle
    ensures var r := IssueRead(t, cell);
      && Inv(r)
      && r.written == t.written
      && r.status.srcOff >= t.status.srcOff
      && (r.status.blocks[cell].stage != BlockIdle <==> t.status.srcOff < t.status.srcSize)
  {
    var p := PrepareRead(t.status, cell);
    if p.sqes != [] {
      assert t.sqes + p.sqes == t.sqes + [p.sqes[0]];
      ReadIntoIdleCell(t, cell, p.sqes[0], p.status.blocks[cell], p.status);
    } else {
      assert t.sqes + p.sqes == t.sqes;
    }
  }

  lemma ReadIntoIdleCell(t: Trace, cell: nat, x: Sqe, b: BlockStatus, s': CopyStatus)
    requires Inv(t) && cell < QUEUE_SIZE && t.status.blocks[cell].stage == BlockIdle
    requires t.status.srcOff < t.status.srcSize
    requires x == Sqe(ReadFixed, t.status.srcFd, cell * READ_BLOCK_SIZE, READ_BLOCK_SIZE, t.status.srcOff, cell)
    requires NextBlock(t.status, b)
    requires s' == t.status.(blocks := t.status.blocks[cell := b], srcOff := t.status.srcOff + b.size,
                             numBlockInProgress := Wrap16(t.status.numBlockInProgress + 1))
    ensures Inv(Trace(s', t.sqes + [x], t.written))
  {
    var s := t.status;
    var rds := OfOp(t.sqes, ReadFixed);
    OfOpAppend(t.sqes, x, ReadFixed);
    OfOpAppend(t.sqes, x, WriteFixed);
    BusyUpdate(s.blocks, cell, b);
    BusyBound(s'.blocks);
    ReadsTileStep(s, s', rds, x);
    CellsFromReadsRead(s, s', rds, x, cell, b);
    WritesFromMoreReads(s, s', rds, x, OfOp(t.sqes, WriteFixed));
    ReadsAccountedRead(s, s', rds, x, cell, b, t.written);
  }

  lemma ReadsTileStep(s: CopyStatus, s': CopyStatus, rds: seq<Sqe>, x: Sqe)
    requires |s.blocks| == QUEUE_SIZE && 0 <= s.srcOff < s.srcSize
    requires ReadsTile(s, rds)
    requires s'.srcSize == s.srcSize && s'.srcFd == s.srcFd
    requires s'.srcOff == s.srcOff + Min(s.srcSize - s.srcOff, READ_BLOCK_SIZE)
    requires x.cell < QUEUE_SIZE
    requires x == Sqe(ReadFixed, s.srcFd, x.cell * READ_BLOCK_SIZE, READ_BLOCK_SIZE, s.srcOff, x.cell)
    ensures s.srcOff == |rds| * READ_BLOCK_SIZE
    ensures ReadsTile(s', rds + [x])
  {
    var rds' := rds + [x];
    forall k | 0 <= k < |rds'|
      ensures rds'[k].cell < QUEUE_SIZE
      ensures rds'[k] == Sqe(ReadFixed, s.srcFd, rds'[k].cell * READ_BLOCK_SIZE, READ_BLOCK_SIZE,
                             k * READ_BLOCK_SIZE, rds'[k].cell)
    {
      if k < |rds| { assert rds'[k] == rds[k]; }
    }
  }

  lemma WritesFromReadsWrite(s: CopyStatus, rds: seq<Sqe>, writes: seq<Sqe>, cell: nat)
    requires WritesFromReads(s, rds, writes) && CellsFromReads(s, rds)
    requires cell < |s.blocks| && s.blocks[cell].stage != BlockIdle
    ensures WritesFromReads(s, rds, writes + [Sqe(WriteFixed, s.dstFd, cell * READ_BLOCK_SIZE, READ_BLOCK_SIZE, s.blocks[cell].offset, cell)])
  {
    var writes' := writes + [Sqe(WriteFixed, s.dstFd, cell * READ_BLOCK_SIZE, READ_BLOCK_SIZE, s.blocks[cell].offset, cell)];
    forall j | 0 <= j < |writes'|
      ensures var v := writes'[j];
        && v.fd == s.dstFd && v.len == READ_BLOCK_SIZE && v.buf == v.cell * READ_BLOCK_SIZE
        && 0 <= v.offset && v.offset % READ_BLOCK_SIZE == 0
        && v.offset / READ_BLOCK_SIZE < |rds| && rds[v.offset / READ_BLOCK_SIZE].cell == v.cell
    {
      if j < |writes| { assert writes'[j] == writes[j]; }
    }
  }

  lemma StageOnlyChange(s: CopyStatus, s': CopyStatus, rds: seq<Sqe>, written: seq<int>, cell: nat)
    requires cell < |s.blocks| && s.blocks[cell].stage != BlockIdle
    requires s' == s.(blocks := s.blocks[cell := s.blocks[cell].(stage := BlockInWrite)])
    requires ReadsTile(s, rds) && CellsFromReads(s, rds) && ReadsAccounted(s, rds, written)
    ensures ReadsTile(s', rds) && CellsFromReads(s', rds) && ReadsAccounted(s', rds, written)
  {
  }

  /** A completed read turns into a write of the same block; the invariant is kept. */
  lemma PrepareWriteInv(t: Trace, cell: nat)
    requires Inv(t) && cell < QUEUE_SIZE && t.status.blocks[cell].stage == BlockInRead
    ensures var w := PrepareWrite(t.status, cell);
      Inv(Trace(w.status, t.sqes + w.sqes, t.written))
  {
    var s := t.status;
    var w := PrepareWrite(s, cell);
    var x := w.sqes[0];
    var rds := OfOp(t.sqes, ReadFixed);
    OfOpAppend(t.sqes, x, ReadFixed);
    OfOpAppend(t.sqes, x, WriteFixed);
    BusyUpdate(s.blocks, cell, w.status.blocks[cell]);
    WritesFromReadsWrite(s, rds, OfOp(t.sqes, WriteFixed), cell);
    StageOnlyChange(s, w.status, rds, t.written, cell);
  }

  lemma ReadsAccountedFinish(s: CopyStatus, s': CopyStatus, rds: seq<Sqe>, written: seq<int>, cell: nat)
    requires ReadsAccounted(s, rds, written) && CellsFromReads(s, rds)
    requires cell < |s.blocks| && s.blocks[cell].stage != BlockIdle
    requires ReadsTile(s, rds)
    requires s'.blocks == s.blocks[cell := s.blocks[cell].(stage := BlockIdle)]
    ensures ReadsAccounted(s', rds, written + [s.blocks[cell].offset])
  {
    var written' := written + [s.blocks[cell].offset];
    forall k | 0 <= k < |rds|
      ensures || k * READ_BLOCK_SIZE in written'
              || (var c := rds[k].cell;
                  c < |s'.blocks| && s'.blocks[c].stage != BlockIdle && s'.blocks[c].offset == k * READ_BLOCK_SIZE)
    {
      if rds[k].cell == cell && k * READ_BLOCK_SIZE !in written {
        assert k * READ_BLOCK_SIZE == s.blocks[cell].offset;
      }
    }
  }

  /** A completed write records its block as written and frees the cell, keeping the
      invariant. */
  lemma FinishWriteInv(t: Trace, cell: nat)
    requires Inv(t) && cell < QUEUE_SIZE && t.status.blocks[cell].stage == BlockInWrite
    ensures Inv(Trace(FinishWrite(t.status, cell), t.sqes, t.written + [t.status.blocks[cell].offset]))
  {
    var s := t.status;
    var f := FinishWrite(s, cell);
    BusyUpdate(s.blocks, cell, f.blocks[cell]);
    ReadsAccountedFinish(s, f, OfOp(t.sqes, ReadFixed), t.written, cell);
  }

  /** A finished read becomes a write; no cell goes idle. */
  lemma ReadCompletionInv(t: Trace, cell: nat)
    requires Inv(t) && Saturated(t.status) && cell < QUEUE_SIZE && t.status.blocks[cell].stage == BlockInRead
    ensures var w := PrepareWrite(t.status, cell);
      Inv(Trace(w.status, t.sqes + w.sqes, t.written)) && Saturated(w.status)
  {
    PrepareWriteInv(t, cell);
  }

  /** A finished write frees its cell, which reads again while data remains. */
  lemma WriteCompletionInv(t: Trace, cell: nat)
    requires Inv(t) && Saturated(t.status) && cell < QUEUE_SIZE && t.status.blocks[cell].stage == BlockInWrite
    ensures var r := PrepareRead(FinishWrite(t.status, cell), cell);
      Inv(Trace(r.status, t.sqes + r.sqes, t.written + [t.status.blocks[cell].offset])) && Saturated(r.status)
  {
    FinishWriteInv(t, cell);
    var f := Trace(FinishWrite(t.status, cell), t.sqes, t.written + [t.status.blocks[cell].offset]);
    IssueReadInv(f, cell);
  }

  /** Every completion keeps the invariant and saturation; an abort names the offset of a
      block of the file. */
  lemma OnCompletionInv(t: Trace, c: Completion)
    requires Inv(t) && Saturated(t.status) && c.cell < QUEUE_SIZE
    ensures var o := OnCompletion(t, c);
      && (o.Running? ==> Inv(o.trace) && Saturated(o.trace.status))
      && (o.Aborted? ==> 0 <= o.offset < t.status.srcSize && o.offset % READ_BLOCK_SIZE == 0)
  {
    match t.status.blocks[c.cell].stage
    case BlockInRead =>
      if c.res >= 0 { ReadCompletionInv(t, c.cell); }
    case BlockInWrite =>
      if c.res >= 0 { WriteCompletionInv(t, c.cell); }
    case BlockIdle =>
  }

  lemma {:induction false} DrainInv(t: Trace, cs: seq<Completion>)
    requires Inv(t) && Saturated(t.status) && CellsFit(cs, QUEUE_SIZE)
    ensures var o := Drain(t, cs);
      && (o.Running? ==> Inv(o.trace) && Saturated(o.trace.status))
      && (o.Aborted? ==> 0 <= o.offset < t.status.srcSize && o.offset % READ_BLOCK_SIZE == 0)
    decreases |cs|
  {
    if cs != [] {
      OnCompletionInv(t, cs[0]);
      var o := OnCompletion(t, cs[0]);
      if o.Running? {
        DrainInv(o.trace, cs[1..]);
      }
    }
  }

  /** The state reached while priming cells `0 .. n-1`. */
  predicate PrimedUpTo(t: Trace, n: nat)
    requires n <= QUEUE_SIZE && |t.status.blocks| == QUEUE_SIZE
  {
    && t.written == []
    && (forall i :: n <= i < QUEUE_SIZE ==> t.status.blocks[i].stage == BlockIdle)
    && (t.status.srcOff < t.status.srcSize ==> forall i :: 0 <= i < n ==> t.status.blocks[i].stage != BlockIdle)
    && (forall k :: 0 <= k < |OfOp(t.sqes, ReadFixed)| ==> OfOp(t.sqes, ReadFixed)[k].cell == k)
  }

  /** Priming cells `0 .. n-1`: cell `i` reads the `i`-th block exactly when the file has
      one, later cells stay idle, and no earlier cell is idle while data remains. */
  lemma {:induction false} PrimeInv(srcSize: u32, srcFd: int, dstFd: int, n: nat)
    requires n <= QUEUE_SIZE
    ensures var t := Prime(Start(srcSize, srcFd, dstFd), n);
      Inv(t) && t.status.srcSize == srcSize && PrimedUpTo(t, n)
  {
    var t0 := Start(srcSize, srcFd, dstFd);
    if n == 0 {
      InitInv(srcSize, srcFd, dstFd);
    } else {
      PrimeInv(srcSize, srcFd, dstFd, n - 1);
      var t := Prime(t0, n - 1);
      IssueReadInv(t, n - 1);
      if t.status.srcOff < t.status.srcSize {
        ReadsBeforeCell(t, n - 1);
      }
      PrimeStep(t, n - 1);
    }
  }

  lemma PrimeStep(t: Trace, cell: nat)
    requires Counters(t.status) && cell < QUEUE_SIZE && PrimedUpTo(t, cell)
    requires t.status.srcOff < t.status.srcSize ==> |OfOp(t.sqes, ReadFixed)| == cell
    ensures PrimedUpTo(IssueRead(t, cell), cell + 1)
  {
    var p := PrepareRead(t.status, cell);
    if p.sqes != [] {
      OfOpAppend(t.sqes, p.sqes[0], ReadFixed);
      assert t.sqes + p.sqes == t.sqes + [p.sqes[0]];
      assert p.status.blocks[cell].stage == BlockInRead;
    } else {
      assert t.sqes + p.sqes == t.sqes;
    }
  }

  /** While priming, there is one read per earlier cell. */
  lemma ReadsBeforeCell(t: Trace, n: nat)
    requires Inv(t) && n <= QUEUE_SIZE && PrimedUpTo(t, n)
    requires t.status.srcOff < t.status.srcSize
    ensures |OfOp(t.sqes, ReadFixed)| == n
  {
    var rds := OfOp(t.sqes, ReadFixed);
    if |rds| > 0 {
      var k := |rds| - 1;
      assert rds[k].cell == k;
    }
    if n > 0 {
      var o := t.status.blocks[n - 1].offset;
      assert rds[o / READ_BLOCK_SIZE].cell == o / READ_BLOCK_SIZE;
    }
  }

  lemma PrimedInv(srcSize: u32, srcFd: int, dstFd: int)
    ensures var t := Prime(Start(srcSize, srcFd, dstFd), QUEUE_SIZE);
      Inv(t) && Saturated(t.status) && t.written == [] && t.status.srcSize == srcSize
  {
    PrimeInv(srcSize, srcFd, dstFd, QUEUE_SIZE);
  }

  /** The main loop keeps the invariant; an abort names a block of the file. */
  lemma {:induction false} LoopInv(t: Trace, rounds: seq<seq<Completion>>)
    requires Inv(t) && Saturated(t.status) && RoundsFit(rounds, QUEUE_SIZE)
    ensures var o := Loop(t, rounds);
      && Inv(o.trace) && o.trace.status.srcSize == t.status.srcSize
      && (o.Running? ==> Saturated(o.trace.status))
      && (o.Aborted? ==> 0 <= o.offset < t.status.srcSize && o.offset % READ_BLOCK_SIZE == 0)
      && (o.Completed? ==> !InProgress(o.trace.status))
    decreases |rounds|
  {
    if InProgress(t.status) && rounds != [] {
      assert CellsFit(rounds[0], QUEUE_SIZE);
      DrainInv(t, rounds[0]);
      DrainKeeps(t, rounds[0]);
      var o := Drain(t, rounds[0]);
      if o.Running? {
        assert RoundsFit(rounds[1..], QUEUE_SIZE) by {
          forall i | 0 <= i < |rounds[1..]| ensures CellsFit(rounds[1..][i], QUEUE_SIZE) {
            assert rounds[1..][i] == rounds[i + 1];
          }
        }
        LoopInv(o.trace, rounds[1..]);
      }
    }
  }

  /** Draining never changes the file size, and an abort keeps the trace it was given. */
  lemma {:induction false} DrainKeeps(t: Trace, cs: seq<Completion>)
    requires Inv(t) && Saturated(t.status) && CellsFit(cs, QUEUE_SIZE)
    ensures var o := Drain(t, cs);
      o.trace.status.srcSize == t.status.srcSize && (o.Aborted? ==> Inv(o.trace))
    decreases |cs|
  {
    if cs != [] {
      OnCompletionInv(t, cs[0]);
      var o := OnCompletion(t, cs[0]);
      if o.Running? {
        DrainKeeps(o.trace, cs[1..]);
      }
    }
  }

  /** When the loop ends, every cell is idle and every block of the file, at each
      multiple of READ_BLOCK_SIZE below its size, has been read exactly once and written. */
  lemma FinishedCopiesEverything(t: Trace)
    requires Inv(t) && !InProgress(t.status)
    ensures forall c :: 0 <= c < |t.status.blocks| ==> t.status.blocks[c].stage == BlockIdle
    ensures |OfOp(t.sqes, ReadFixed)| == (t.status.srcSize + READ_BLOCK_SIZE - 1) / READ_BLOCK_SIZE
    ensures forall o :: 0 <= o < t.status.srcSize && o % READ_BLOCK_SIZE == 0 ==> o in t.written
  {
    var s := t.status;
    var rds := OfOp(t.sqes, ReadFixed);
    CountStages(s.blocks);
    forall c | 0 <= c < |s.blocks| ensures s.blocks[c].stage == BlockIdle {
      CountZero(s.blocks, BlockInRead, c);
      CountZero(s.blocks, BlockInWrite, c);
    }
    forall o | 0 <= o < s.srcSize && o % READ_BLOCK_SIZE == 0 ensures o in t.written {
      var k := o / READ_BLOCK_SIZE;
      assert k * READ_BLOCK_SIZE == o;
      assert k < |rds|;
    }
  }

  /** A copy that completes has written every block of the source; an aborted one
      reports the offset of a block of the source. */
  lemma CopyFileCorrect(srcSize: u32, srcFd: int, dstFd: int, rounds: seq<seq<Completion>>)
    requires RoundsFit(rounds, QUEUE_SIZE)
    ensures var o := CopyFile(srcSize, srcFd, dstFd, rounds);
      && (o.Completed? ==>
            && o.trace.status.srcOff == srcSize && o.trace.status.numBlockInProgress == 0
            && |OfOp(o.trace.sqes, ReadFixed)| == (srcSize + READ_BLOCK_SIZE - 1) / READ_BLOCK_SIZE
            && forall off :: 0 <= off < srcSize && off % READ_BLOCK_SIZE == 0 ==> off in o.trace.written)
      && (o.Aborted? ==> 0 <= o.offset < srcSize && o.offset % READ_BLOCK_SIZE == 0)
      && (o.Running? ==> Inv(o.trace) && Saturated(o.trace.status))
  {
    PrimedInv(srcSize, srcFd, dstFd);
    var t := Prime(Start(srcSize, srcFd, dstFd), QUEUE_SIZE);
    LoopInv(t, rounds);
    var o := Loop(t, rounds);
    if o.Completed? {
      FinishedCopiesEverything(o.trace);
    }
  }

  // ---------------------------------------------------------------------------
  // Termination
  // ---------------------------------------------------------------------------

  /** Blocks not yet read. */
  function RemainingBlocks(s: CopyStatus): nat
  {
    if s.srcOff >= s.srcSize then 0 else (s.srcSize - s.srcOff + READ_BLOCK_SIZE - 1) / READ_BLOCK_SIZE
  }

  /** Every block still to read costs a read, a write and a finish; a reading cell costs
      two more completions, a writing cell one. */
  function Measure(s: CopyStatus): nat
  {
    3 * RemainingBlocks(s) + 2 * Count(s.blocks, BlockInRead) + Count(s.blocks, BlockInWrite)
  }

  lemma RemainingStep(s: CopyStatus, s': CopyStatus)
    requires 0 <= s.srcOff < s.srcSize && s'.srcSize == s.srcSize
    requires s'.srcOff == s.srcOff + Min(s.srcSize - s.srcOff, READ_BLOCK_SIZE)
    ensures RemainingBlocks(s') + 1 == RemainingBlocks(s)
  {
    var d := s.srcSize - s.srcOff;
    if d > READ_BLOCK_SIZE {
      assert (d + READ_BLOCK_SIZE - 1) / READ_BLOCK_SIZE == (d - 1) / READ_BLOCK_SIZE + 1;
    }
  }

  /** The loop runs exactly while the measure is positive. */
  lemma MeasureZero(t: Trace)
    requires Inv(t)
    ensures InProgress(t.status) <==> Measure(t.status) > 0
  {
  }

  /** A finished read turns into a write, which costs one completion fewer. */
  lemma ReadDoneProgress(s: CopyStatus, cell: nat)
    requires cell < |s.blocks| && s.blocks[cell].stage == BlockInRead
    ensures var w := PrepareWrite(s, cell).status;
      Measure(w) < Measure(s) && w.srcOff == s.srcOff
  {
    var w := PrepareWrite(s, cell);
    CountUpdate(s.blocks, cell, w.status.blocks[cell], BlockInRead);
    CountUpdate(s.blocks, cell, w.status.blocks[cell], BlockInWrite);
  }

  /** A finished write frees the cell, and the read it issues next takes one block off
      the blocks still to read. */
  lemma WriteDoneProgress(s: CopyStatus, cell: nat)
    requires cell < |s.blocks| && s.blocks[cell].stage == BlockInWrite && 0 <= s.srcOff <= s.srcSize
    ensures var r := PrepareRead(FinishWrite(s, cell), cell).status;
      Measure(r) < Measure(s) && s.srcOff <= r.srcOff
  {
    var f := FinishWrite(s, cell);
    CountUpdate(s.blocks, cell, f.blocks[cell], BlockInRead);
    CountUpdate(s.blocks, cell, f.blocks[cell], BlockInWrite);
    var r := PrepareRead(f, cell);
    if r.sqes != [] {
      CountUpdate(f.blocks, cell, r.status.blocks[cell], BlockInRead);
      CountUpdate(f.blocks, cell, r.status.blocks[cell], BlockInWrite);
      RemainingStep(f, r.status);
    }
  }

  /** A completion on a busy cell that does not abort lowers the measure; one on an idle
      cell changes nothing at all. */
  lemma CompletionProgress(t: Trace, c: Completion)
    requires Inv(t) && Saturated(t.status) && c.cell < QUEUE_SIZE
    ensures var o := OnCompletion(t, c);
      && (t.status.blocks[c.cell].stage == BlockIdle ==> o == Running(t))
      && (t.status.blocks[c.cell].stage != BlockIdle && o.Running? ==> Measure(o.trace.status) < Measure(t.status))
      && (o.Running? ==> t.status.srcOff <= o.trace.status.srcOff)
  {
    var s := t.status;
    match s.blocks[c.cell].stage
    case BlockInRead =>
      if c.res >= 0 {
        ReadDoneProgress(s, c.cell);
      }
    case BlockInWrite =>
      if c.res >= 0 {
        WriteDoneProgress(s, c.cell);
      }
    case BlockIdle =>
  }
}
