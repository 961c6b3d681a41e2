/** The thread-pool copy: NUM_THREADS threads share one buffer, thread `t` owning the
    block-sized slice at `t * READ_BLOCK_SIZE`, and thread `t` copies the blocks at
    `k * READ_BLOCK_SIZE * NUM_THREADS + t * READ_BLOCK_SIZE` for k = 0, 1, 2, ... with
    pread and pwrite, stopping at the end of the file, after its first short read, or
    on a failed or short write.  What pread and pwrite return is an input. */
module ThreadPoolCopy {
  import opened Uint
  import PowerOfTwo

  const NUM_THREADS: nat := 8
  const READ_BLOCK_SIZE: nat := 512
  /** How far a thread's cursor moves per iteration. */
  const STRIDE: nat := READ_BLOCK_SIZE * NUM_THREADS

  /** THREAD_ARGS; `buffer` is the thread's slice as an offset into the shared buffer. */
  datatype ThreadArgs = ThreadArgs(threadI: nat, buffer: nat, srcSize: nat, srcFd: int, dstFd: int)

  /** What pread and then pwrite return in one iteration. */
  datatype Io = Io(bytesRead: int, bytesWritten: int)

  /** A block copied: its offset and the number of bytes read and written there. */
  datatype Copied = Copied(offset: nat, len: nat)

  datatype Failure = ReadFailed | WriteFailed

  /** How a thread ends: it leaves its loop, it exits the process over a failed call at
      `offset`, or it is still going when the inputs run out, at cursor `i`. */
  datatype ThreadOutcome =
    | Done(copied: seq<Copied>)
    | Failed(failure: Failure, offset: nat, copied: seq<Copied>)
    | Unfinished(copied: seq<Copied>, i: nat)

  /** Block-aligned offset of thread `t`'s `k`-th iteration. */
  function Offset(t: nat, k: nat): (r: nat)
    ensures r % READ_BLOCK_SIZE == 0
    ensures t < NUM_THREADS ==> r / STRIDE == k && r % STRIDE == t * READ_BLOCK_SIZE
  {
    PowerOfTwo.ModUnique(k * STRIDE + t * READ_BLOCK_SIZE, READ_BLOCK_SIZE, k * NUM_THREADS + t, 0);
    if t < NUM_THREADS then PowerOfTwo.ModUnique(k * STRIDE + t * READ_BLOCK_SIZE, STRIDE, k, t * READ_BLOCK_SIZE);
      k * STRIDE + t * READ_BLOCK_SIZE
    else k * STRIDE + t * READ_BLOCK_SIZE
  }

  /** The arguments `main` gives thread `t`. */
  function Args(t: nat, srcSize: u32, srcFd: int, dstFd: int): (a: ThreadArgs)
    ensures a.threadI == t && a.srcSize == srcSize
    ensures a.buffer == t * READ_BLOCK_SIZE
  {
    ThreadArgs(t, t * READ_BLOCK_SIZE, srcSize, srcFd, dstFd)
  }

  /** What pread and pwrite can return for a block-sized request. */
  predicate IosFit(ios: seq<Io>)
  {
    forall j :: 0 <= j < |ios| ==> -1 <= ios[j].bytesRead <= READ_BLOCK_SIZE && -1 <= ios[j].bytesWritten
  }

  /** The cursor after `i += READ_BLOCK_SIZE * NUM_THREADS`, in uint32_t when `wrap`. */
  function Next(i: nat, wrap: bool): nat
  {
    if wrap then Wrap32(i + STRIDE) else i + STRIDE
  }

  function Prepend(c: Copied, o: ThreadOutcome): (r: ThreadOutcome)
    ensures r.copied == [c] + o.copied
  {
    match o
    case Done(cs) => Done([c] + cs)
    case Failed(f, off, cs) => Failed(f, off, [c] + cs)
    case Unfinished(cs, i) => Unfinished([c] + cs, i)
  }

  /** `thread_func`'s loop from cursor `i`. */
  function Run(a: ThreadArgs, i: nat, ios: seq<Io>, wrap: bool): (o: ThreadOutcome)
    requires IosFit(ios)
    ensures |o.copied| <= |ios| && (o.Unfinished? ==> |o.copied| == |ios|)
    decreases |ios|
  {
    if i >= a.srcSize then Done([])
    else
      var offset := i + a.threadI * READ_BLOCK_SIZE;
      if offset > a.srcSize then Done([])
      else if ios == [] then Unfinished([], i)
      else
        var r := ios[0].bytesRead;
        var w := ios[0].bytesWritten;
        if r == -1 then Failed(ReadFailed, offset, [])
        else if w == -1 || w != r then Failed(WriteFailed, offset, [])
        else if r != READ_BLOCK_SIZE then Done([Copied(offset, r)])
        else Prepend(Copied(offset, r), Run(a, Next(i, wrap), ios[1..], wrap))
  }

  /** `thread_func` as written: the cursor is a uint32_t. */
  function ThreadRunAsWritten(a: ThreadArgs, ios: seq<Io>): (o: ThreadOutcome)
    requires IosFit(ios)
    ensures |o.copied| <= |ios| && (o.Unfinished? ==> |o.copied| == |ios|)
  {
    Run(a, 0, ios, true)
  }

  /** `thread_func` with a cursor that does not wrap around. */
  function ThreadRun(a: ThreadArgs, ios: seq<Io>): (o: ThreadOutcome)
    requires IosFit(ios)
    ensures |o.copied| <= |ios| && (o.Unfinished? ==> |o.copied| == |ios|)
  {
    Run(a, 0, ios, false)
  }

  /** The copy: every thread runs `ThreadRun` on its own arguments; `ios[t]` is what
      thread `t`'s calls return. */
  function Pool(srcSize: u32, srcFd: int, dstFd: int, ios: seq<seq<Io>>): (r: seq<ThreadOutcome>)
    requires |ios| == NUM_THREADS && forall t :: 0 <= t < NUM_THREADS ==> IosFit(ios[t])
    ensures |r| == NUM_THREADS
    ensures forall t :: 0 <= t < NUM_THREADS ==> r[t].copied == [] || r[t].copied[0].offset == t * READ_BLOCK_SIZE
    ensures forall t :: 0 <= t < NUM_THREADS ==> |r[t].copied| <= |ios[t]|
  {
    seq(NUM_THREADS, t requires 0 <= t < NUM_THREADS => ThreadRun(Args(t, srcSize, srcFd, dstFd), ios[t]))
  }

  // ---------------------------------------------------------------------------
  // The schedule
  // ---------------------------------------------------------------------------

  /** The `j`-th block a thread copied has the length its `j`-th pread and pwrite both
      returned. */
  lemma {:induction false} RunCopies(a: ThreadArgs, i: nat, ios: seq<Io>, wrap: bool)
    requires IosFit(ios)
    ensures var o := Run(a, i, ios, wrap);
      forall j :: 0 <= j < |o.copied| ==> o.copied[j].len == ios[j].bytesRead == ios[j].bytesWritten
    decreases |ios|
  {
    var o := Run(a, i, ios, wrap);
    if i < a.srcSize && i + a.threadI * READ_BLOCK_SIZE <= a.srcSize && ios != []
       && ios[0].bytesRead == ios[0].bytesWritten == READ_BLOCK_SIZE {
      RunCopies(a, Next(i, wrap), ios[1..], wrap);
      var o' := Run(a, Next(i, wrap), ios[1..], wrap);
      forall j | 1 <= j < |o.copied| ensures o.copied[j].len == ios[j].bytesRead == ios[j].bytesWritten {
        assert o.copied[j] == o'.copied[j - 1] && ios[j] == ios[1..][j - 1];
      }
    }
  }

  /** One thread's offsets grow by the stride from one iteration to the next. */
  lemma OffsetStep(t: nat, k: nat)
    ensures Offset(t, k + 1) == Offset(t, k) + STRIDE
  {
  }

  /** Two iterations of two threads never share an offset. */
  lemma OffsetsDisjoint(t1: nat, k1: nat, t2: nat, k2: nat)
    requires t1 < NUM_THREADS && t2 < NUM_THREADS
    ensures Offset(t1, k1) == Offset(t2, k2) <==> t1 == t2 && k1 == k2
  {
  }

  /** Every block-aligned offset is some thread's offset in some iteration whose cursor
      lies at or below it. */
  lemma OffsetCovers(o: nat)
    requires o % READ_BLOCK_SIZE == 0
    ensures var t, k := (o / READ_BLOCK_SIZE) % NUM_THREADS, (o / READ_BLOCK_SIZE) / NUM_THREADS;
      t < NUM_THREADS && Offset(t, k) == o && k * STRIDE <= o
  {
  }

  /** The thread slices `[t * B, (t + 1) * B)` lie in the buffer of B * NUM_THREADS bytes
      and no two threads' slices overlap. */
  lemma SlicesDisjoint(t1: nat, t2: nat, srcSize: u32, srcFd: int, dstFd: int)
    requires t1 < NUM_THREADS && t2 < NUM_THREADS && t1 != t2
    ensures var b1, b2 := Args(t1, srcSize, srcFd, dstFd).buffer, Args(t2, srcSize, srcFd, dstFd).buffer;
      && b1 + READ_BLOCK_SIZE <= READ_BLOCK_SIZE * NUM_THREADS
      && (b1 + READ_BLOCK_SIZE <= b2 || b2 + READ_BLOCK_SIZE <= b1)
  {
  }

  // ---------------------------------------------------------------------------
  // What a thread does
  // ---------------------------------------------------------------------------

  /** Iteration `k` of a thread runs when its cursor is inside the file and its offset is
      not past the end; the test is `>`, so an offset equal to the size still runs. */
  predicate InBounds(a: ThreadArgs, k: nat)
  {
    k * STRIDE < a.srcSize && Offset(a.threadI, k) <= a.srcSize
  }

  /** From iteration `k0` on (cursor `k0 * STRIDE`, no wrap-around) the `j`-th block copied
      is iteration `k0 + j`: at that iteration's offset, at or below the size with its
      cursor below it, as many bytes written as read, and every block but the last a full
      one. */
  lemma {:induction false} RunSchedule(a: ThreadArgs, k0: nat, ios: seq<Io>)
    requires IosFit(ios)
    ensures |Run(a, k0 * STRIDE, ios, false).copied| <= |ios|
    ensures var cs := Run(a, k0 * STRIDE, ios, false).copied;
      forall j :: 0 <= j < |cs| ==>
        && cs[j].offset == Offset(a.threadI, k0 + j)
        && cs[j].offset <= a.srcSize && cs[j].offset < a.srcSize + a.threadI * READ_BLOCK_SIZE
        && cs[j].len == ios[j].bytesRead == ios[j].bytesWritten
    ensures var cs := Run(a, k0 * STRIDE, ios, false).copied;
      forall j :: 0 <= j < |cs| - 1 ==> cs[j].len == READ_BLOCK_SIZE
    decreases |ios|
  {
    var i := k0 * STRIDE;
    if i < a.srcSize && i + a.threadI * READ_BLOCK_SIZE <= a.srcSize && ios != [] {
      var r := ios[0].bytesRead;
      if r != -1 && ios[0].bytesWritten == r && r == READ_BLOCK_SIZE {
        assert Next(i, false) == (k0 + 1) * STRIDE;
        RunSchedule(a, k0 + 1, ios[1..]);
        var rest := Run(a, (k0 + 1) * STRIDE, ios[1..], false).copied;
        var cs := Run(a, i, ios, false).copied;
        assert cs == [Copied(i + a.threadI * READ_BLOCK_SIZE, r)] + rest;
        forall j | 0 <= j < |cs|
          ensures cs[j].offset == Offset(a.threadI, k0 + j)
          ensures cs[j].offset <= a.srcSize && cs[j].offset < a.srcSize + a.threadI * READ_BLOCK_SIZE
          ensures cs[j].len == ios[j].bytesRead == ios[j].bytesWritten
        {
          if j > 0 {
            assert cs[j] == rest[j - 1] && ios[j] == ios[1..][j - 1];
          }
        }
        forall j | 0 <= j < |cs| - 1
          ensures cs[j].len == READ_BLOCK_SIZE
        {
          if j > 0 {
            assert cs[j] == rest[j - 1];
          }
        }
      }
    }
  }

  /** Later iterations are in bounds only if earlier ones are. */
  lemma InBoundsDown(a: ThreadArgs, k: nat, k': nat)
    requires k <= k' && InBounds(a, k')
    ensures InBounds(a, k)
  {
  }

  /** A thread that leaves its loop normally has reached every in-bounds iteration `k`,
      unless one of its reads before iteration `k` was short. */
  lemma {:induction false} RunReaches(a: ThreadArgs, k0: nat, ios: seq<Io>, k: nat)
    requires IosFit(ios) && k0 <= k && InBounds(a, k)
    requires var o := Run(a, k0 * STRIDE, ios, false);
      && o.Done?
      && forall j :: 0 <= j < |o.copied| && k0 + j < k ==> o.copied[j].len == READ_BLOCK_SIZE
    ensures k - k0 < |Run(a, k0 * STRIDE, ios, false).copied|
    decreases |ios|
  {
    var i := k0 * STRIDE;
    InBoundsDown(a, k0, k);
    var cs := Run(a, i, ios, false).copied;
    if k > k0 {
      assert cs[0].len == READ_BLOCK_SIZE;
      assert Next(i, false) == (k0 + 1) * STRIDE;
      var rest := Run(a, (k0 + 1) * STRIDE, ios[1..], false);
      assert cs == [cs[0]] + rest.copied;
      forall j | 0 <= j < |rest.copied| && k0 + 1 + j < k
        ensures rest.copied[j].len == READ_BLOCK_SIZE
      {
        assert rest.copied[j] == cs[j + 1];
      }
      RunReaches(a, k0 + 1, ios[1..], k);
    }
  }

  /** Thread `t`'s k-th copied block is at `Offset(t, k)`, no block it copies starts past
      the end of the file, each write has the length of its read, and only the last read
      may be short. */
  lemma ThreadSchedule(a: ThreadArgs, ios: seq<Io>)
    requires IosFit(ios)
    ensures var cs := ThreadRun(a, ios).copied;
      && |cs| <= |ios|
      && (forall k :: 0 <= k < |cs| ==>
            cs[k].offset == Offset(a.threadI, k) && cs[k].offset <= a.srcSize
            && cs[k].len == ios[k].bytesRead == ios[k].bytesWritten)
      && (forall k :: 0 <= k < |cs| - 1 ==> cs[k].len == READ_BLOCK_SIZE)
  {
    RunSchedule(a, 0, ios);
  }

  /** The whole copy: every block-aligned offset below the size is copied by exactly one
      thread, the one that owns it, provided that thread left its loop normally and read
      no short block before it; no thread copies a block at an offset any other thread
      copies. */
  lemma PoolCoverage(srcSize: u32, srcFd: int, dstFd: int, ios: seq<seq<Io>>, o: nat)
    requires |ios| == NUM_THREADS && forall t :: 0 <= t < NUM_THREADS ==> IosFit(ios[t])
    requires o < srcSize && o % READ_BLOCK_SIZE == 0
    ensures var t, k := (o / READ_BLOCK_SIZE) % NUM_THREADS, (o / READ_BLOCK_SIZE) / NUM_THREADS;
      var r := Pool(srcSize, srcFd, dstFd, ios)[t];
      && t < NUM_THREADS
      && (r.Done? && (forall j :: 0 <= j < |r.copied| && j < k ==> r.copied[j].len == READ_BLOCK_SIZE) ==>
            k < |r.copied| && r.copied[k].offset == o)
      && (forall t', j :: 0 <= t' < NUM_THREADS && t' != t && 0 <= j < |Pool(srcSize, srcFd, dstFd, ios)[t'].copied| ==>
            Pool(srcSize, srcFd, dstFd, ios)[t'].copied[j].offset != o)
  {
    var t, k := (o / READ_BLOCK_SIZE) % NUM_THREADS, (o / READ_BLOCK_SIZE) / NUM_THREADS;
    OffsetCovers(o);
    var a := Args(t, srcSize, srcFd, dstFd);
    var r := Pool(srcSize, srcFd, dstFd, ios)[t];
    assert r == Run(a, 0 * STRIDE, ios[t], false);
    if r.Done? && (forall j :: 0 <= j < |r.copied| && j < k ==> r.copied[j].len == READ_BLOCK_SIZE) {
      RunReaches(a, 0, ios[t], k);
      ThreadSchedule(a, ios[t]);
    }
    forall t', j | 0 <= t' < NUM_THREADS && t' != t && 0 <= j < |Pool(srcSize, srcFd, dstFd, ios)[t'].copied|
      ensures Pool(srcSize, srcFd, dstFd, ios)[t'].copied[j].offset != o
    {
      ThreadSchedule(Args(t', srcSize, srcFd, dstFd), ios[t']);
      OffsetsDisjoint(t', j, t, k);
    }
  }

  // ---------------------------------------------------------------------------
  // The uint32_t cursor
  // ---------------------------------------------------------------------------

  /** Below 2^32 - STRIDE the uint32_t cursor never wraps and the two loops agree. */
  lemma {:induction false} RunAgrees(a: ThreadArgs, i: nat, ios: seq<Io>)
    requires IosFit(ios) && a.srcSize + STRIDE <= U32
    ensures Run(a, i, ios, true) == Run(a, i, ios, false)
    decreases |ios|
  {
    if i < a.srcSize && ios != [] {
      RunAgrees(a, i + STRIDE, ios[1..]);
    }
  }

  /** As written, for a file of 2^32 - 1 bytes, thread 0 at its last cursor below 2^32
      copies that block and then wraps its cursor to 0 and copies block 0 again. */
  lemma AsWrittenWrapsToStart(srcFd: int, dstFd: int)
    ensures var a := Args(0, U32 - 1, srcFd, dstFd);
      var full := Io(READ_BLOCK_SIZE, READ_BLOCK_SIZE);
      Run(a, U32 - STRIDE, [full, full], true)
        == Unfinished([Copied(U32 - STRIDE, READ_BLOCK_SIZE), Copied(0, READ_BLOCK_SIZE)], STRIDE)
  {
    var a := Args(0, U32 - 1, srcFd, dstFd);
    var full := Io(READ_BLOCK_SIZE, READ_BLOCK_SIZE);
    assert Next(U32 - STRIDE, true) == 0 && Next(0, true) == STRIDE;
    assert [full, full][1..] == [full] && [full][1..] == [];
    assert Run(a, STRIDE, [], true) == Unfinished([], STRIDE);
    assert Run(a, 0, [full], true) == Prepend(Copied(0, READ_BLOCK_SIZE), Run(a, STRIDE, [], true));
    assert Run(a, U32 - STRIDE, [full, full], true)
      == Prepend(Copied(U32 - STRIDE, READ_BLOCK_SIZE), Run(a, 0, [full], true));
  }

  /** Without wrap-around the same thread stops after that block. */
  lemma CorrectedStopsAtEnd(srcFd: int, dstFd: int)
    ensures var a := Args(0, U32 - 1, srcFd, dstFd);
      var full := Io(READ_BLOCK_SIZE, READ_BLOCK_SIZE);
      Run(a, U32 - STRIDE, [full, full], false) == Done([Copied(U32 - STRIDE, READ_BLOCK_SIZE)])
  {
  }

  /** Without wrap-around a thread's cursors strictly increase, so it never copies a
      block twice: the offsets it copies are pairwise distinct. */
  lemma ThreadCopiesOnce(a: ThreadArgs, ios: seq<Io>)
    requires IosFit(ios)
    ensures var cs := ThreadRun(a, ios).copied;
      forall j1, j2 :: 0 <= j1 < j2 < |cs| ==> cs[j1].offset < cs[j2].offset
  {
    ThreadSchedule(a, ios);
  }
}
