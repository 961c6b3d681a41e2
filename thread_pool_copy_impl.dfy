/** The thread-pool copy as the main procedure runs it: an array of thread arguments
    filled in a loop, and `thread_func`'s loop over a cursor, proved to compute what
    `ThreadRun` and `Pool` describe.  The threads share nothing but their disjoint buffer
    slices, so running them one after another gives the outcomes they have together. */
module ThreadPoolCopyImpl {
  import opened Uint
  import opened ThreadPoolCopy

  /** `o` with `cs` copied before everything it copied. */
  function Extend(cs: seq<Copied>, o: ThreadOutcome): (r: ThreadOutcome)
    ensures r.copied == cs + o.copied
  {
    match o
    case Done(x) => Done(cs + x)
    case Failed(f, off, x) => Failed(f, off, cs + x)
    case Unfinished(x, i) => Unfinished(cs + x, i)
  }

  lemma ExtendPrepend(cs: seq<Copied>, c: Copied, o: ThreadOutcome)
    ensures Extend(cs, Prepend(c, o)) == Extend(cs + [c], o)
  {
    assert cs + ([c] + o.copied) == (cs + [c]) + o.copied;
  }

  /** One iteration of `Run` once the cursor and the offset are inside the file. */
  lemma RunUnfold(a: ThreadArgs, i: nat, ios: seq<Io>)
    requires IosFit(ios) && i < a.srcSize && i + a.threadI * READ_BLOCK_SIZE <= a.srcSize && ios != []
    ensures IosFit(ios[1..])
    ensures var r, w, offset := ios[0].bytesRead, ios[0].bytesWritten, i + a.threadI * READ_BLOCK_SIZE;
      Run(a, i, ios, false) ==
        if r == -1 then Failed(ReadFailed, offset, [])
        else if w == -1 || w != r then Failed(WriteFailed, offset, [])
        else if r != READ_BLOCK_SIZE then Done([Copied(offset, r)])
        else Prepend(Copied(offset, r), Run(a, i + STRIDE, ios[1..], false))
  {
  }

  /** `thread_func`: copy this thread's blocks, one stride apart, until the cursor or the
      offset passes the size, a read comes back short, or a call fails. */
  method ThreadFunc(a: ThreadArgs, ios: seq<Io>) returns (o: ThreadOutcome)
    requires IosFit(ios)
    ensures o == ThreadRun(a, ios)
  {
    var i: nat := 0;
    var rest := ios;
    var copied: seq<Copied> := [];
    while i < a.srcSize
      invariant IosFit(rest)
      invariant Extend(copied, Run(a, i, rest, false)) == ThreadRun(a, ios)
      decreases |rest|
    {
      var offset := i + a.threadI * READ_BLOCK_SIZE;
      assert copied + [] == copied;
      if offset > a.srcSize {
        return Done(copied);
      }
      if rest == [] {
        return Unfinished(copied, i);
      }
      RunUnfold(a, i, rest);
      var bytesRead := rest[0].bytesRead;
      if bytesRead == -1 {
        return Failed(ReadFailed, offset, copied);
      }
      var bytesWritten := rest[0].bytesWritten;
      if bytesWritten == -1 || bytesWritten != bytesRead {
        return Failed(WriteFailed, offset, copied);
      }
      if bytesRead != READ_BLOCK_SIZE {
        return Done(copied + [Copied(offset, bytesRead)]);
      }
      ExtendPrepend(copied, Copied(offset, bytesRead), Run(a, i + STRIDE, rest[1..], false));
      copied := copied + [Copied(offset, bytesRead)];
      i := i + STRIDE;
      rest := rest[1..];
    }
    assert copied + [] == copied;
    return Done(copied);
  }

  /** The loop in the main procedure that fills in every thread's arguments. */
  method InitArgs(srcSize: u32, srcFd: int, dstFd: int) returns (args: array<ThreadArgs>)
    ensures fresh(args)
    ensures args[..] == seq(NUM_THREADS, t requires 0 <= t => Args(t, srcSize, srcFd, dstFd))
  {
    args := new ThreadArgs[NUM_THREADS];
    for t := 0 to NUM_THREADS
      invariant forall u :: 0 <= u < t ==> args[u] == Args(u, srcSize, srcFd, dstFd)
    {
      args[t] := ThreadArgs(t, t * READ_BLOCK_SIZE, srcSize, srcFd, dstFd);
    }
  }

  /** The main procedure after the buffer is allocated: build the arguments, run every
      thread on its own results of pread and pwrite, and collect how each one ended. */
  method Copy(srcSize: u32, srcFd: int, dstFd: int, ios: seq<seq<Io>>) returns (outcomes: seq<ThreadOutcome>)
    requires |ios| == NUM_THREADS && forall t :: 0 <= t < NUM_THREADS ==> IosFit(ios[t])
    ensures outcomes == Pool(srcSize, srcFd, dstFd, ios)
  {
    var args := InitArgs(srcSize, srcFd, dstFd);
    outcomes := [];
    for t := 0 to NUM_THREADS
      invariant args[..] == seq(NUM_THREADS, u requires 0 <= u => Args(u, srcSize, srcFd, dstFd))
      invariant outcomes == Pool(srcSize, srcFd, dstFd, ios)[..t]
    {
      assert args[t] == args[..][t] == Args(t, srcSize, srcFd, dstFd);
      assert Pool(srcSize, srcFd, dstFd, ios)[..t + 1] == outcomes + [Pool(srcSize, srcFd, dstFd, ios)[t]];
      var o := ThreadFunc(args[t], ios[t]);
      outcomes := outcomes + [o];
    }
    assert Pool(srcSize, srcFd, dstFd, ios)[..NUM_THREADS] == Pool(srcSize, srcFd, dstFd, ios);
  }
}
