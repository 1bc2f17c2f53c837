/**
 submit_to_sq and read_from_cq as they run on shared memory. The kernel's thread makes moves of its own
 choosing (the `kernel` arguments) between any two stores of the program's thread. The ghost trace records
 the interleaving, and Valid() says that it is a run of the machine in module Ring. Careful() says that every
 submission in it has found a free slot.
 */
module RingMemory {
  import opened Words
  import opened Bytes
  import opened Blocks
  import F = Fifo
  import R = Ring
  import I = RingIntact
  import Q = RingRuns
  import T = Submission
  import D = Drain
  import M = MainLoop

  datatype KernelMove = Consume | Complete(j: nat, res: int)

  /** A move that is not possible now is skipped. */
  ghost function Moved(disk: F.Disk, s: R.Rings, move: KernelMove): (s': R.Rings)
    requires R.RingSizes(s)
    ensures R.RingSizes(s')
  {
    match move
    case Consume => if s.sqHead != s.sqTail then R.Apply(disk, s, R.KernelConsume) else s
    case Complete(j, res) =>
      if R.Enabled(disk, s, R.KernelComplete(j, res)) then R.Apply(disk, s, R.KernelComplete(j, res)) else s
  }

  /** The kernel, with nothing in flight, takes the oldest request and completes it before it does anything else. */
  ghost predicate Serves(disk: F.Disk, s: R.Rings, moves: seq<KernelMove>)
    requires R.RingSizes(s)
  {
    && s.sqHead != s.sqTail && s.inflight == [] && Lag(s.cqHead, s.cqTail) < |s.cqes|
    && |moves| >= 2 && moves[0] == Consume && moves[1].Complete? && moves[1].j == 0
    && F.CanComplete(disk, s.heap, s.sqes[Slot(s.sqHead, |s.sqes|)], moves[1].res)
  }

  /** The completion that it posts. */
  function ServedCqe(s: R.Rings, moves: seq<KernelMove>): F.Cqe
    requires |s.sqes| > 0 && |moves| >= 2 && moves[1].Complete?
  {
    F.Cqe(s.sqes[Slot(s.sqHead, |s.sqes|)].userData, moves[1].res)
  }

  lemma ServesAtOnce(disk: F.Disk, s: R.Rings, moves: seq<KernelMove>)
    requires R.RingSizes(s) && I.SlotsNamed(s) && Serves(disk, s, moves)
    ensures Moved(disk, Moved(disk, s, moves[0]), moves[1]).log.posted == s.log.posted + [ServedCqe(s, moves)]
  {
    I.ConsumeFacts(disk, s);
  }

  /** How things stood when the loop of main() began. */
  datatype Begun = Begun(trace: seq<R.Step>, console: seq<byte>, fds: seq<int>, roomy: bool, quiet: bool)

  class SharedRings {
    const disk: F.Disk
    const indices: array<nat>
    const sqes: array<F.Sqe>
    const cqes: array<F.Cqe>
    var sqHead: u32
    var sqTail: u32
    var cqHead: u32
    var cqTail: u32
    var inflight: seq<F.Sqe>
    var heap: F.Heap
    var console: seq<byte>
    ghost var pc: R.Pc
    ghost var log: F.History
    ghost const start: R.Rings
    ghost var trace: seq<R.Step>

    ghost function Snapshot(): R.Rings
      reads this, indices, sqes, cqes
    {
      R.Rings(sqHead, sqTail, indices[..], sqes[..], cqHead, cqTail, cqes[..], pc, inflight, heap, log)
    }

    ghost predicate Valid()
      reads this, indices, sqes, cqes
    {
      && indices as object != sqes && indices as object != cqes && sqes as object != cqes
      && Q.Reached(disk, start, trace, Snapshot())
      && console == Q.Stdout(log.reaped)
    }

    /** Every submission so far has found a free slot when it made its first store. */
    ghost predicate Careful()
      requires Valid()
      reads this, indices, sqes, cqes
    {
      Q.Careful(disk, start, trace)
    }

    /** Records that the step just taken is one of the machine's. */
    ghost method Took(before: R.Rings, step: R.Step)
      requires indices as object != sqes && indices as object != cqes && sqes as object != cqes
      requires Q.Reached(disk, start, trace, before)
      requires R.Enabled(disk, before, step) && Snapshot() == R.Apply(disk, before, step)
      requires console == Q.Stdout(log.reaped)
      modifies this`trace
      ensures Valid() && trace == old(trace) + [step]
    {
      Q.Extend(disk, start, trace, before, step);
      trace := trace + [step];
    }

    /** Freshly mapped rings, whose counters may stand anywhere. */
    constructor (disk: F.Disk, sqEntries: nat, cqEntries: nat, sqCounter: u32, cqCounter: u32)
      requires IsRingSize(sqEntries) && IsRingSize(cqEntries)
      ensures Valid() && Careful() && pc.Idle? && log == F.History([], [], [], [], map[])
      ensures sqes.Length == sqEntries && cqes.Length == cqEntries && this.disk == disk
      ensures sqHead == sqTail == sqCounter && cqHead == cqTail == cqCounter && console == []
    {
      var ix, sq, cq := new nat[sqEntries], new F.Sqe[sqEntries], new F.Cqe[cqEntries];
      this.disk := disk;
      indices, sqes, cqes := ix, sq, cq;
      sqHead, sqTail, cqHead, cqTail := sqCounter, sqCounter, cqCounter, cqCounter;
      inflight, heap, console := [], map[], [];
      pc, log, trace := R.Idle, F.History([], [], [], [], map[]), [];
      start := R.Rings(sqCounter, sqCounter, ix[..], sq[..], cqCounter, cqCounter, cq[..], R.Idle, [], map[],
                       F.History([], [], [], [], map[]));
    }

    // -------------------------------------------------------------- the kernel's thread

    method KernelConsume()
      requires Valid() && R.Enabled(disk, Snapshot(), R.KernelConsume)
      modifies this, sqes, cqes
      ensures Valid() && trace == old(trace) + [R.KernelConsume]
      ensures Snapshot() == R.Apply(disk, old(Snapshot()), R.KernelConsume)
    {
      ghost var before := Snapshot();
      ConsumeReady();
      var sqe := sqes[indices[Slot(sqHead, indices.Length)]];
      inflight := inflight + [sqe];
      log := log.(consumed := log.consumed + [sqe]);
      sqHead := Wrap32(sqHead + 1);
      Took(before, R.KernelConsume);
    }

    method KernelComplete(j: nat, res: int)
      requires Valid() && R.Enabled(disk, Snapshot(), R.KernelComplete(j, res))
      modifies this, sqes, cqes
      ensures Valid() && trace == old(trace) + [R.KernelComplete(j, res)]
      ensures Snapshot() == R.Apply(disk, old(Snapshot()), R.KernelComplete(j, res))
    {
      ghost var before := Snapshot();
      ghost var cqe := F.Cqe(inflight[j].userData, res);
      Deliver(j, res);
      log := log.(posted := log.posted + [cqe]);
      Took(before, R.KernelComplete(j, res));
    }

    /** The kernel's transfer and the completion it posts. */
    method Deliver(j: nat, res: int)
      requires R.RingSizes(Snapshot()) && R.Enabled(disk, Snapshot(), R.KernelComplete(j, res))
      requires cqes as object != indices && cqes as object != sqes
      modifies this`heap, this`inflight, this`cqTail, cqes
      ensures Snapshot() == R.Apply(disk, old(Snapshot()), R.KernelComplete(j, res)).(log := log)
    {
      var sqe := inflight[j];
      heap := F.KernelReadv(disk, heap, sqe, res);
      inflight := inflight[..j] + inflight[j + 1..];
      Post(F.Cqe(sqe.userData, res));
    }

    method Post(cqe: F.Cqe)
      requires cqes.Length > 0
      modifies this`cqTail, cqes
      ensures cqes[..] == old(cqes[..])[Slot(old(cqTail), cqes.Length) := cqe]
      ensures cqTail == Wrap32(old(cqTail) + 1)
    {
      cqes[Slot(cqTail, cqes.Length)] := cqe;
      cqTail := Wrap32(cqTail + 1);
    }

    lemma ConsumeReady()
      requires Valid() && sqHead != sqTail
      ensures indices[Slot(sqHead, indices.Length)] < sqes.Length
    {
      I.ReachedIsIntact(disk, start, trace, Snapshot());
      I.ConsumeIsKernelOnly(disk, Snapshot());
    }

    lemma KernelFrame(step: R.Step)
      requires Valid() && (step.KernelConsume? || step.KernelComplete?) && R.Enabled(disk, Snapshot(), step)
      ensures I.KernelOnly(Snapshot(), R.Apply(disk, Snapshot(), step))
    {
      I.ReachedIsIntact(disk, start, trace, Snapshot());
      if step.KernelConsume? {
        I.ConsumeIsKernelOnly(disk, Snapshot());
      } else {
        I.CompleteIsKernelOnly(disk, Snapshot(), step.j, step.res);
      }
    }

    method Move(move: KernelMove)
      requires Valid()
      modifies this, sqes, cqes
      ensures Valid() && Snapshot() == Moved(disk, old(Snapshot()), move)
      ensures I.KernelOnly(old(Snapshot()), Snapshot()) && I.OnlyKernel(old(trace), trace)
    {
      match move {
        case Consume =>
          if sqHead != sqTail {
            KernelFrame(R.KernelConsume);
            KernelConsume();
          }
        case Complete(j, res) =>
          if j < |inflight| && F.CanComplete(disk, heap, inflight[j], res) && Lag(cqHead, cqTail) < cqes.Length {
            KernelFrame(R.KernelComplete(j, res));
            KernelComplete(j, res);
          }
      }
    }

    /** What is posted after the first `k` of the moves, if the kernel serves a request with the first two. */
    ghost predicate Posts(before: R.Rings, moves: seq<KernelMove>, k: nat)
      reads this, indices, sqes, cqes
    {
      R.RingSizes(before) && R.RingSizes(Snapshot()) && Serves(disk, before, moves) ==>
        if k == 0 then Snapshot() == before
        else if k == 1 then Snapshot() == Moved(disk, before, moves[0])
        else before.log.posted + [ServedCqe(before, moves)] <= log.posted
    }

    /** Any number of kernel moves. */
    method Kernel(moves: seq<KernelMove>)
      requires Valid()
      modifies this, sqes, cqes
      ensures Valid() && I.KernelOnly(old(Snapshot()), Snapshot()) && I.OnlyKernel(old(trace), trace)
      ensures Posts(old(Snapshot()), moves, |moves|)
    {
      ghost var before := Snapshot();
      I.ReachedIsIntact(disk, start, trace, before);
      var k := 0;
      while k < |moves|
        invariant 0 <= k <= |moves|
        invariant Valid() && I.KernelOnly(before, Snapshot()) && I.OnlyKernel(old(trace), trace)
        invariant Posts(before, moves, k)
      {
        ghost var now := Snapshot();
        Move(moves[k]);
        PostsNext(before, now, moves, k);
        k := k + 1;
      }
    }

    lemma PostsNext(before: R.Rings, now: R.Rings, moves: seq<KernelMove>, k: nat)
      requires R.RingSizes(before) && I.SlotsNamed(before) && R.RingSizes(now) && k < |moves|
      requires Serves(disk, before, moves) ==>
                 if k == 0 then now == before
                 else if k == 1 then now == Moved(disk, before, moves[0])
                 else before.log.posted + [ServedCqe(before, moves)] <= now.log.posted
      requires Snapshot() == Moved(disk, now, moves[k]) && now.log.posted <= log.posted
      ensures Posts(before, moves, k + 1)
    {
      if Serves(disk, before, moves) {
        ServesAtOnce(disk, before, moves);
        if k > 1 {
          PrefixTwice(before.log.posted + [ServedCqe(before, moves)], now.log.posted, log.posted);
        }
      }
    }

    // -------------------------------------------------------------- submit_to_sq

    /** One store into the SQE that `tail` designates, then whatever the kernel does meanwhile. */
    method StoreSqeField(ghost fi: nat, tail: u32, k: nat, r: F.Sqe, kernel: seq<KernelMove>)
      requires Valid() && k < R.SQE_FIELDS && pc == R.Filling(fi, tail, k)
      requires fi in heap && r == F.RequestFor(fi, heap[fi])
      modifies this, sqes, cqes
      ensures Valid() && pc == R.Filling(fi, tail, k + 1) && Undisturbed(old(Snapshot()), fi)
      ensures T.OnlyBetween(old(trace), trace)
    {
      ghost var before := Snapshot();
      var index := Slot(tail, sqes.Length);
      sqes[index] := R.StoreField(sqes[index], k, r);
      pc := R.Filling(fi, tail, k + 1);
      Took(before, R.WriteField);
      Kernel(kernel);
    }

    /** What the program's thread relies on while it fills a slot for `fi`. */
    ghost predicate Undisturbed(before: R.Rings, fi: nat)
      reads this
    {
      && fi in before.heap && fi in heap
      && heap[fi].fd == before.heap[fi].fd && heap[fi].fileSz == before.heap[fi].fileSz
      && log.submitted == before.log.submitted
      && log.reaped == before.log.reaped
    }

    function Moves(kernel: seq<seq<KernelMove>>, k: nat): seq<KernelMove> {
      if k < |kernel| then kernel[k] else []
    }

    /**
     Submits a readv for the file open at `fd`; `fi` is the address malloc() returns for the file_info and
     `bufs` the blocks posix_memalign() returns. Whether a slot is free is not checked. Whatever happened before, if
     one is free when the first store is made, as it is if one is free when the tail is read, the kernel sees this
     request behind those before it, and nothing else changes in its view.
     */
    method SubmitToSq(fi: nat, fd: int, bufs: seq<seq<byte>>, kernel: seq<seq<KernelMove>>)
      requires Valid() && pc.Idle?
      requires fi !in heap && F.CanAllocate(disk, fd, bufs)
      modifies this, indices, sqes, cqes
      ensures Valid() && pc.Idle?
      ensures fi in heap && heap[fi].fd == fd && heap[fi].fileSz == |disk[fd]|
      ensures log.submitted == old(log.submitted) + [F.RequestFor(fi, heap[fi])] && log.reaped == old(log.reaped)
      ensures F.AsksForFile(F.RequestFor(fi, heap[fi]), fi, heap[fi])
      ensures M.Remembers(disk, old(log.memory), log.memory, fi, fd, bufs)
      ensures sqTail == Wrap32(old(sqTail) + 1)
      ensures old(trace) <= trace && T.OnlySubmission(old(trace), R.BeginSubmit(fi, fd, bufs), trace)
      ensures var begin, steps := R.BeginSubmit(fi, fd, bufs), trace[|old(trace)|..];
              && T.Amounts(disk, old(Snapshot()), begin, steps, Snapshot(), F.RequestFor(fi, heap[fi]))
              && (Careful() <==> old(Careful()) && T.RoomAtFirstStore(disk, old(Snapshot()), steps))
      ensures old(D.Quiet(Snapshot())) ==>
                M.Loaded(Snapshot(), F.RequestFor(fi, heap[fi])) && log.posted == old(log.posted)
    {
      ghost var t0, before := trace, Snapshot();
      Submit(fi, fd, bufs, kernel);
      T.OwnRequest(disk, before, R.BeginSubmit(fi, fd, bufs), heap[fi]);
      T.LastSubmission(disk, start, t0, before, R.BeginSubmit(fi, fd, bufs), trace, Snapshot(),
                       F.RequestFor(fi, heap[fi]));
      KnownSubmission(t0, before, fi, fd, bufs);
    }

    lemma KnownSubmission(t0: seq<R.Step>, before: R.Rings, fi: nat, fd: int, bufs: seq<seq<byte>>)
      requires Valid() && pc.Idle? && Q.Reached(disk, start, t0, before) && t0 <= trace && fi in heap
      requires before.pc.Idle? && fi !in before.heap && F.CanAllocate(disk, fd, bufs)
      requires T.Amounts(disk, before, R.BeginSubmit(fi, fd, bufs), trace[|t0|..], Snapshot(),
                         F.RequestFor(fi, heap[fi]))
      ensures F.AsksForFile(F.RequestFor(fi, heap[fi]), fi, heap[fi])
      ensures M.Remembers(disk, before.log.memory, log.memory, fi, fd, bufs)
      ensures D.Quiet(before) ==>
                M.Loaded(Snapshot(), F.RequestFor(fi, heap[fi])) && log.posted == before.log.posted
    {
      var begin, r := R.BeginSubmit(fi, fd, bufs), F.RequestFor(fi, heap[fi]);
      I.ReachedIsIntact(disk, start, trace, Snapshot());
      I.ReachedIsIntact(disk, start, t0, before);
      F.RequestAsksForFile(disk, heap, fi);
      M.SubmissionMemory(disk, before, fi, fd, bufs, trace[|t0|..], Snapshot(), r);
      if D.Quiet(before) {
        M.SubmittedFromQuiet(disk, before, begin, trace[|t0|..], Snapshot(), r);
      }
    }

    method Submit(fi: nat, fd: int, bufs: seq<seq<byte>>, kernel: seq<seq<KernelMove>>)
      requires Valid() && pc.Idle?
      requires fi !in heap && F.CanAllocate(disk, fd, bufs)
      modifies this, indices, sqes, cqes
      ensures Valid() && pc.Idle?
      ensures fi in heap && heap[fi].fd == fd && heap[fi].fileSz == |disk[fd]|
      ensures log.submitted == old(log.submitted) + [F.RequestFor(fi, heap[fi])] && log.reaped == old(log.reaped)
      ensures sqTail == Wrap32(old(sqTail) + 1)
      ensures T.OnlySubmission(old(trace), R.BeginSubmit(fi, fd, bufs), trace)
    {
      var tail := Prepare(fi, fd, bufs, kernel);
      PublishTail(fi, tail);
    }

    /** Everything up to the store to the shared tail. */
    method Prepare(fi: nat, fd: int, bufs: seq<seq<byte>>, kernel: seq<seq<KernelMove>>) returns (tail: u32)
      requires Valid() && pc.Idle?
      requires fi !in heap && F.CanAllocate(disk, fd, bufs)
      modifies this, indices, sqes, cqes
      ensures Valid() && pc == R.Publishing(fi, tail) && tail == old(sqTail)
      ensures fi in heap && heap[fi].fd == fd && heap[fi].fileSz == |disk[fd]|
      ensures log.submitted == old(log.submitted) && log.reaped == old(log.reaped)
      ensures T.OnlyBetween(old(trace) + [R.BeginSubmit(fi, fd, bufs)], trace)
    {
      var iovecs := SplitFile(|disk[fd]|, F.BLOCK_SZ, bufs);
      var r;
      tail, r := BeginSubmit(fi, fd, bufs, iovecs[..]);
      FillSlot(fi, tail, r, kernel);
    }

    /** All the stores into the slot at `tail`. */
    method FillSlot(ghost fi: nat, tail: u32, r: F.Sqe, kernel: seq<seq<KernelMove>>)
      requires Valid() && pc == R.Filling(fi, tail, 0)
      requires fi in heap && r == F.RequestFor(fi, heap[fi])
      modifies this, indices, sqes, cqes
      ensures Valid() && pc == R.Publishing(fi, tail) && Undisturbed(old(Snapshot()), fi)
      ensures T.OnlyBetween(old(trace), trace)
    {
      Kernel(Moves(kernel, 0));
      StoreSqe(fi, tail, r, kernel);
      StoreIndex(fi, tail, Moves(kernel, 8));
    }

    method StoreSqe(ghost fi: nat, tail: u32, r: F.Sqe, kernel: seq<seq<KernelMove>>)
      requires Valid() && pc == R.Filling(fi, tail, 0)
      requires fi in heap && r == F.RequestFor(fi, heap[fi])
      modifies this, sqes, cqes
      ensures Valid() && pc == R.Filling(fi, tail, R.SQE_FIELDS) && Undisturbed(old(Snapshot()), fi)
      ensures T.OnlyBetween(old(trace), trace)
    {
      StoreAddress(fi, tail, r, kernel);
      StoreSqeField(fi, tail, 4, r, Moves(kernel, 5));    // len
      StoreSqeField(fi, tail, 5, r, Moves(kernel, 6));    // off
      StoreSqeField(fi, tail, 6, r, Moves(kernel, 7));    // user_data
    }

    method StoreAddress(ghost fi: nat, tail: u32, r: F.Sqe, kernel: seq<seq<KernelMove>>)
      requires Valid() && pc == R.Filling(fi, tail, 0)
      requires fi in heap && r == F.RequestFor(fi, heap[fi])
      modifies this, sqes, cqes
      ensures Valid() && pc == R.Filling(fi, tail, 4) && Undisturbed(old(Snapshot()), fi)
      ensures T.OnlyBetween(old(trace), trace)
    {
      StoreSqeField(fi, tail, 0, r, Moves(kernel, 1));    // fd
      StoreSqeField(fi, tail, 1, r, Moves(kernel, 2));    // flags
      StoreSqeField(fi, tail, 2, r, Moves(kernel, 3));    // opcode
      StoreSqeField(fi, tail, 3, r, Moves(kernel, 4));    // addr
    }

    /** Allocates the file_info and reads the tail. */
    method BeginSubmit(fi: nat, fd: int, ghost bufs: seq<seq<byte>>, iovecs: seq<Iovec<seq<byte>>>)
      returns (tail: u32, r: F.Sqe)
      requires Valid() && pc.Idle?
      requires fi !in heap && F.CanAllocate(disk, fd, bufs)
      requires iovecs == IovecsFor(Lengths(|disk[fd]|, F.BLOCK_SZ), bufs)
      modifies this`heap, this`pc, this`log, this`trace
      ensures Valid() && pc == R.Filling(fi, tail, 0) && tail == sqTail
      ensures fi in heap && r == F.RequestFor(fi, heap[fi]) && heap[fi].fd == fd && heap[fi].fileSz == |disk[fd]|
      ensures log.submitted == old(log.submitted) && log.reaped == old(log.reaped)
      ensures trace == old(trace) + [R.BeginSubmit(fi, fd, bufs)]
    {
      ghost var before := Snapshot();
      heap := heap[fi := F.FileInfo(fd, |disk[fd]|, iovecs)];
      log := log.(memory := log.memory[fi := F.PrintOf(heap, fi)]);
      tail := sqTail;
      r := F.RequestFor(fi, heap[fi]);
      pc := R.Filling(fi, tail, 0);
      Took(before, R.BeginSubmit(fi, fd, bufs));
    }

    /** The entry of the index array for that slot, which names the slot itself. */
    method StoreIndex(ghost fi: nat, tail: u32, kernel: seq<KernelMove>)
      requires Valid() && pc == R.Filling(fi, tail, R.SQE_FIELDS) && fi in heap
      modifies this, indices, sqes, cqes
      ensures Valid() && pc == R.Publishing(fi, tail) && Undisturbed(old(Snapshot()), fi)
      ensures T.OnlyBetween(old(trace), trace)
    {
      ghost var before := Snapshot();
      var index := Slot(tail, indices.Length);
      indices[index] := index;
      pc := R.Publishing(fi, tail);
      Took(before, R.WriteIndex);
      Kernel(kernel);
    }

    /** The store to `*sring->tail` that lets the kernel see the request. */
    method PublishTail(ghost fi: nat, tail: u32)
      requires Valid() && pc == R.Publishing(fi, tail) && fi in heap
      modifies this`sqTail, this`pc, this`log, this`trace
      ensures Valid() && pc.Idle? && sqTail == Wrap32(tail + 1)
      ensures log.submitted == old(log.submitted) + [F.RequestFor(fi, heap[fi])] && log.reaped == old(log.reaped)
      ensures trace == old(trace) + [R.PublishTail]
    {
      ghost var before := Snapshot();
      var nextTail := Wrap32(tail + 1);
      if sqTail != nextTail {
        sqTail := nextTail;
      }
      log := log.(submitted := log.submitted + [F.RequestFor(fi, heap[fi])]);
      pc := R.Idle;
      Took(before, R.PublishTail);
    }

    // -------------------------------------------------------------- read_from_cq

    /**
     Reaps until the completion queue is seen empty. Everything posted before the call has then been taken and printed,
     and so has what the kernel posts at once when the call begins. The head published has moved on by what was taken,
     and is the tail as it was after exactly those completions were posted: it never overtakes the tail.
     */
    method ReadFromCq(kernel: seq<seq<KernelMove>>)
      requires Valid() && pc.Idle?
      modifies this, sqes, cqes
      ensures Valid() && pc.Idle? && (Careful() <==> old(Careful()))
      ensures log.submitted == old(log.submitted) && Lag(sqHead, sqTail) <= old(Lag(sqHead, sqTail))
      ensures old(log.reaped) <= log.reaped && old(log.posted) <= F.ReapedCqes(log.reaped) <= log.posted
      ensures cqHead == Advance(old(cqHead), |log.reaped| - |old(log.reaped)|)
      ensures cqTail == Advance(cqHead, |log.posted| - |log.reaped|)
      ensures M.WholeReap(old(trace), trace) && log.memory == old(log.memory)
      ensures ServedBy(old(Snapshot()), Moves(kernel, 0), F.ReapedCqes(log.reaped))
    {
      ghost var t0, before := trace, Snapshot();
      ReapAndPublish(kernel);
      M.ReapLeaves(disk, start, t0, before, trace, Snapshot());
      KnownCounters();
    }

    method ReapAndPublish(kernel: seq<seq<KernelMove>>)
      requires Valid() && pc.Idle?
      modifies this, sqes, cqes
      ensures Valid() && pc.Idle? && I.OnlyReaped(old(Snapshot()), Snapshot())
      ensures old(log.posted) <= F.ReapedCqes(log.reaped) && M.WholeReap(old(trace), trace)
      ensures ServedBy(old(Snapshot()), Moves(kernel, 0), F.ReapedCqes(log.reaped))
    {
      ghost var before := Snapshot();
      var head, rounds := ReapUntilEmpty(kernel);
      ghost var now := Snapshot();
      Finish(head, Moves(kernel, rounds));
      I.OnlyReapedTwice(before, now, Snapshot());
    }

    /** If the kernel serves a request with these moves, its completion has been posted behind the earlier ones. */
    ghost predicate ServedBy(before: R.Rings, moves: seq<KernelMove>, posted: seq<F.Cqe>) {
      R.RingSizes(before) && Serves(disk, before, moves) ==>
        before.log.posted + [ServedCqe(before, moves)] <= posted
    }

    method ReapUntilEmpty(kernel: seq<seq<KernelMove>>) returns (head: u32, rounds: nat)
      requires Valid() && pc.Idle?
      modifies this, sqes, cqes
      ensures Valid() && pc == R.Reaping(head) && head == cqTail
      ensures I.OnlyReaped(old(Snapshot()), Snapshot()) && I.OnlyReaping(old(trace) + [R.BeginReap], trace)
      ensures ServedBy(old(Snapshot()), Moves(kernel, 0), log.posted)
    {
      ghost var before := Snapshot();
      head := BeginReap();
      FirstMoves(before, Moves(kernel, 0));
      ghost var now := Snapshot();
      head, rounds := ReapAll(head, kernel);
      I.OnlyReapedTwice(before, now, Snapshot());
      if Serves(disk, before, Moves(kernel, 0)) {
        PrefixTwice(before.log.posted + [ServedCqe(before, Moves(kernel, 0))], now.log.posted, log.posted);
      }
    }

    /** What the kernel does before the queue is looked at for the first time. */
    method FirstMoves(ghost before: R.Rings, kernel: seq<KernelMove>)
      requires Valid() && pc.Reaping? && I.OnlyReaped(before, Snapshot()) && Snapshot() == before.(pc := pc)
      modifies this, sqes, cqes
      ensures Valid() && pc == old(pc) && I.OnlyReaped(before, Snapshot()) && I.OnlyKernel(old(trace), trace)
      ensures ServedBy(before, kernel, log.posted)
    {
      LetKernel(before, kernel);
    }

    /** The queue having been seen empty, publishes the head. */
    method Finish(head: u32, kernel: seq<KernelMove>)
      requires Valid() && pc == R.Reaping(head) && head == cqTail
      modifies this, sqes, cqes
      ensures Valid() && pc.Idle? && cqHead == head
      ensures I.OnlyReaped(old(Snapshot()), Snapshot()) && old(log.posted) == F.ReapedCqes(log.reaped)
      ensures I.OnlyReaping(old(trace), trace) && |old(trace)| < |trace| && trace[|trace| - 1].PublishHead?
    {
      EndReap(head);
      Kernel(kernel);
      PublishHead(head);
    }

    /** The loop of read_from_cq, the kernel having made its moves before the first look at the queue. */
    method ReapAll(first: u32, kernel: seq<seq<KernelMove>>) returns (head: u32, rounds: nat)
      requires Valid() && pc == R.Reaping(first)
      modifies this, sqes, cqes
      ensures Valid() && pc == R.Reaping(head) && head == cqTail
      ensures I.OnlyReaped(old(Snapshot()), Snapshot()) && I.OnlyReaping(old(trace), trace)
    {
      ghost var before := Snapshot();
      head, rounds := first, 1;
      while head != cqTail
        invariant Valid() && pc == R.Reaping(head)
        invariant I.OnlyReaped(before, Snapshot()) && I.OnlyReaping(old(trace), trace)
        decreases I.Waiting(Snapshot())
      {
        ghost var now := Snapshot();
        head := ReapOne(head);
        I.OnlyReapedTwice(before, now, Snapshot());
        LetKernel(before, Moves(kernel, rounds));
        rounds := rounds + 1;
      }
    }

    method LetKernel(ghost before: R.Rings, kernel: seq<KernelMove>)
      requires Valid() && I.OnlyReaped(before, Snapshot())
      modifies this, sqes, cqes
      ensures Valid() && pc == old(pc) && I.OnlyReaped(before, Snapshot())
      ensures I.Waiting(Snapshot()) == old(I.Waiting(Snapshot())) && I.OnlyKernel(old(trace), trace)
      ensures ServedBy(old(Snapshot()), kernel, log.posted)
    {
      ghost var now := Snapshot();
      Kernel(kernel);
      I.KernelReapsNothing(now, Snapshot());
      I.OnlyReapedTwice(before, now, Snapshot());
    }

    lemma KnownCounters()
      requires Valid() && pc.Idle?
      ensures |log.reaped| <= |log.posted| && F.ReapedCqes(log.reaped) <= log.posted
      ensures cqTail == Advance(cqHead, |log.posted| - |log.reaped|)
    {
      I.ReachedIsIntact(disk, start, trace, Snapshot());
      I.TailCountsPosted(Snapshot());
    }

    method BeginReap() returns (head: u32)
      requires Valid() && pc.Idle?
      modifies this`pc, this`trace
      ensures Valid() && pc == R.Reaping(head) && I.OnlyReaped(old(Snapshot()), Snapshot())
      ensures Snapshot() == old(Snapshot()).(pc := pc) && trace == old(trace) + [R.BeginReap]
    {
      ghost var before := Snapshot();
      head := cqHead;
      pc := R.Reaping(head);
      Took(before, R.BeginReap);
    }

    /** Takes the completion at `head` and prints its file_info's blocks, whatever `res` says. */
    method ReapOne(head: u32) returns (next: u32)
      requires Valid() && pc == R.Reaping(head) && head != cqTail
      modifies this`console, this`pc, this`log, this`trace
      ensures Valid() && pc == R.Reaping(next) && trace == old(trace) + [R.ReapOne]
      ensures I.OnlyReaped(old(Snapshot()), Snapshot()) && log == old(log).(reaped := log.reaped)
      ensures I.Waiting(Snapshot()) < old(I.Waiting(Snapshot()))
    {
      ReapReady(head);
      var cqe := cqes[Slot(head, cqes.Length)];
      PrintCompletion(cqe);
      next := Wrap32(head + 1);
      Record(head, cqe);
    }

    /** Enters the completion just printed into the history. */
    ghost method Record(head: u32, cqe: F.Cqe)
      requires indices as object != sqes && indices as object != cqes && sqes as object != cqes
      requires Q.Reached(disk, start, trace, Snapshot())
      requires pc == R.Reaping(head) && head != cqTail && cqe == cqes[Slot(head, cqes.Length)]
      requires console == Q.Stdout(log.reaped) + F.PrintOf(heap, cqe.userData)
      modifies this`pc, this`log, this`trace
      ensures Valid() && Snapshot() == R.Apply(disk, old(Snapshot()), R.ReapOne) && trace == old(trace) + [R.ReapOne]
    {
      ghost var before := Snapshot();
      Q.StdoutSnoc(log.reaped, F.Reaped(cqe, F.PrintOf(heap, cqe.userData)));
      log := log.(reaped := log.reaped + [F.Reaped(cqe, F.PrintOf(heap, cqe.userData))]);
      pc := R.Reaping(Wrap32(head + 1));
      Took(before, R.ReapOne);
    }

    /** The printing loop of read_from_cq for one completion. */
    method PrintCompletion(cqe: F.Cqe)
      requires cqe.userData in heap
      requires IsSplit(heap[cqe.userData].fileSz, F.BLOCK_SZ, heap[cqe.userData].iovecs)
      modifies this`console
      ensures console == old(console) + F.PrintOf(heap, cqe.userData)
    {
      var fi := heap[cqe.userData];
      console := PrintBlocks(console, fi.fileSz, F.BLOCK_SZ, fi.iovecs);
    }

    lemma ReapReady(head: u32)
      requires Valid() && pc == R.Reaping(head) && head != cqTail
      ensures var fi := cqes[Slot(head, cqes.Length)].userData;
              fi in heap && IsSplit(heap[fi].fileSz, F.BLOCK_SZ, heap[fi].iovecs)
      ensures I.Waiting(R.Apply(disk, Snapshot(), R.ReapOne)) < I.Waiting(Snapshot())
      ensures I.OnlyReaped(Snapshot(), R.Apply(disk, Snapshot(), R.ReapOne))
    {
      I.ReachedIsIntact(disk, start, trace, Snapshot());
      I.ReapFacts(disk, Snapshot());
      I.ReapIsProgress(disk, Snapshot());
    }

    ghost method EndReap(head: u32)
      requires Valid() && pc == R.Reaping(head) && head == cqTail
      modifies this`pc, this`trace
      ensures Valid() && pc == R.Closing(head) && F.ReapedCqes(log.reaped) == log.posted
      ensures trace == old(trace) + [R.EndReap]
    {
      ghost var before := Snapshot();
      pc := R.Closing(head);
      Took(before, R.EndReap);
      I.ReachedIsIntact(disk, start, trace, Snapshot());
      LagFacts(head, cqTail);
      I.EmptyMeansReaped(Snapshot());
    }

    method PublishHead(head: u32)
      requires Valid() && pc == R.Closing(head)
      modifies this`cqHead, this`pc, this`trace
      ensures Valid() && pc.Idle? && cqHead == head && trace == old(trace) + [R.PublishHead]
    {
      ghost var before := Snapshot();
      cqHead := head;
      pc := R.Idle;
      Took(before, R.PublishHead);
    }

    // -------------------------------------------------------------- main

    /** Every submission so far has found a free slot; so would the next `n`, even if the kernel took none of them. */
    ghost predicate RoomFor(n: nat)
      requires Valid()
      reads this, indices, sqes, cqes
    {
      Careful() && Lag(sqHead, sqTail) + n <= sqes.Length
    }

    /** Standard output is files that were requested, each at most once and each with the bytes read for it. */
    ghost predicate PrintsRequests()
      reads this
    {
      && console == Q.Stdout(log.reaped)
      && F.ReapedOk(disk, heap, log.memory, log.reaped)
      && F.NoRepeats(F.CqeIds(F.ReapedCqes(log.reaped)))
      && multiset(F.CqeIds(F.ReapedCqes(log.reaped))) <= multiset(F.SqeIds(log.submitted))
    }

    lemma CarefulOutput()
      requires Valid() && Careful()
      ensures PrintsRequests()
    {
      Q.EveryRun(disk, start, trace);
    }

    /**
     The loop of main(): each file in turn is submitted, and the completions there are by then are reaped. `fds` are the
     results of open() and `memory` the blocks handed out for each file. The files before the first that does not open
     each get such a round, in order. If all find a free slot, as they do if there is room for all, only they are
     printed. If the rings are quiet at first and the kernel serves each request before the queue is seen empty, every
     one of them is printed, in order, with the bytes read for it.
     */
    method ReadFiles(fds: seq<int>, memory: seq<seq<seq<byte>>>,
                     submitting: seq<seq<seq<KernelMove>>>, reaping: seq<seq<seq<KernelMove>>>)
      returns (status: int)
      requires Valid() && pc.Idle?
      requires |memory| == |submitting| == |reaping| == |fds|
      requires forall i :: 0 <= i < |fds| && fds[i] >= 0 ==> F.CanAllocate(disk, fds[i], memory[i])
      modifies this, indices, sqes, cqes
      ensures Valid() && pc.Idle?
      ensures status == 0 <==> forall i :: 0 <= i < |fds| ==> fds[i] >= 0
      ensures Fds(log.submitted) == old(Fds(log.submitted)) + fds[..Opened(fds)]
      ensures M.AreRounds(disk, start, old(trace), trace, fds, memory, Opened(fds))
      ensures old(RoomFor(|fds|)) ==> Careful()
      ensures Careful() ==> PrintsRequests()
      ensures old(D.Quiet(Snapshot()) && Careful()) && AllPrompt(disk, fds, reaping, Opened(fds)) ==>
                && Shows(disk, fds, memory, reaping, Opened(fds), old(console), console)
                && D.Quiet(Snapshot()) && Careful()
    {
      ghost var begun := Begun(trace, console, Fds(log.submitted), RoomFor(|fds|), D.Quiet(Snapshot()) && Careful());
      status := Loop(begun, fds, memory, submitting, reaping);
      if Careful() {
        CarefulOutput();
      }
    }

    method Loop(ghost begun: Begun, fds: seq<int>, memory: seq<seq<seq<byte>>>,
                submitting: seq<seq<seq<KernelMove>>>, reaping: seq<seq<seq<KernelMove>>>)
      returns (status: int)
      requires Valid() && pc.Idle?
      requires |memory| == |submitting| == |reaping| == |fds| && RoundsDone(begun, fds, memory, reaping, 0)
      requires forall i :: 0 <= i < |fds| && fds[i] >= 0 ==> F.CanAllocate(disk, fds[i], memory[i])
      modifies this, indices, sqes, cqes
      ensures Valid() && pc.Idle? && RoundsDone(begun, fds, memory, reaping, Opened(fds))
      ensures status == 0 <==> forall i :: 0 <= i < |fds| ==> fds[i] >= 0
    {
      AllOpenIff(fds);
      var i := 0;
      while i < |fds|
        invariant 0 <= i <= |fds| && Valid() && pc.Idle?
        invariant i <= Opened(fds) && RoundsDone(begun, fds, memory, reaping, i)
      {
        OpenedIff(fds, i);
        if fds[i] < 0 {
          return 1;
        }
        NextRound(begun, fds, memory, submitting[i], reaping, i);
        i := i + 1;
      }
      return 0;
    }

    /** Where the loop of main() is after `n` rounds. */
    ghost predicate RoundsDone(begun: Begun, fds: seq<int>, memory: seq<seq<seq<byte>>>,
                               reaping: seq<seq<seq<KernelMove>>>, n: nat)
      requires Valid() && n <= |fds| == |memory| == |reaping|
      reads this, indices, sqes, cqes
    {
      && (begun.roomy ==> RoomFor(|fds| - n))
      && LoopAt(disk, start, begun, trace, Fds(log.submitted), console, D.Quiet(Snapshot()) && Careful(),
                fds, memory, reaping, n)
    }

    method NextRound(ghost begun: Begun, fds: seq<int>, memory: seq<seq<seq<byte>>>,
                     submitting: seq<seq<KernelMove>>, reaping: seq<seq<seq<KernelMove>>>, i: nat)
      requires Valid() && pc.Idle? && i < |fds| == |memory| == |reaping| && RoundsDone(begun, fds, memory, reaping, i)
      requires F.CanAllocate(disk, fds[i], memory[i])
      modifies this, indices, sqes, cqes
      ensures Valid() && pc.Idle? && RoundsDone(begun, fds, memory, reaping, i + 1)
    {
      ghost var t1, now, shown, quiet := trace, Fds(log.submitted), console, D.Quiet(Snapshot()) && Careful();
      ReadFile(fds[i], memory[i], submitting, reaping[i], |fds| - i - 1);
      LoopNext(disk, start, begun, t1, now, shown, quiet, trace, console, D.Quiet(Snapshot()) && Careful(),
               fds, memory, reaping, i);
    }

    /** One round of that loop. */
    method ReadFile(fd: int, bufs: seq<seq<byte>>, submitting: seq<seq<KernelMove>>, reaping: seq<seq<KernelMove>>,
                    ghost left: nat)
      requires Valid() && pc.Idle? && F.CanAllocate(disk, fd, bufs)
      modifies this, indices, sqes, cqes
      ensures Valid() && pc.Idle?
      ensures Fds(log.submitted) == old(Fds(log.submitted)) + [fd]
      ensures M.IsRound(disk, start, old(trace), trace, fd, bufs)
      ensures old(RoomFor(left + 1)) ==> RoomFor(left)
      ensures old(D.Quiet(Snapshot()) && Careful()) && Prompt(disk, fd, reaping) ==>
                && M.CanPrint(disk, fd, bufs, ResultOf(reaping))
                && console == old(console) + M.PrintOfRound(disk, fd, bufs, ResultOf(reaping))
                && D.Quiet(Snapshot()) && Careful()
    {
      ghost var unused := FreshAddress(heap.Keys);
      var fi: nat :| fi !in heap;
      ghost var t0, s := trace, Snapshot();
      ghost var t1, m := SubmitAndReap(fi, fd, bufs, submitting, reaping);
      FdsSnoc(s.log.submitted, F.RequestFor(fi, m.heap[fi]));
      M.RoundStatesAreRound(disk, start, t0, s, t1, m, trace, Snapshot(), fi, fd, bufs);
      if D.Quiet(s) && Q.Careful(disk, start, t0) && Prompt(disk, fd, reaping) {
        I.ReachedIsIntact(disk, start, t1, m);
        LoadedServes(disk, m, fi, reaping);
        M.QuietIsCareful(disk, start, t0, s, t1, m, trace, Snapshot(), fi, fd, bufs);
        M.RoundPrints(disk, start, t0, s, t1, m, trace, Snapshot(), fi, fd, bufs, ResultOf(reaping));
      }
    }

    /** The two calls of a round; `t1` and `m` are the trace and the state between them. */
    method SubmitAndReap(fi: nat, fd: int, bufs: seq<seq<byte>>,
                         submitting: seq<seq<KernelMove>>, reaping: seq<seq<KernelMove>>)
      returns (ghost t1: seq<R.Step>, ghost m: R.Rings)
      requires Valid() && pc.Idle? && fi !in heap && F.CanAllocate(disk, fd, bufs)
      modifies this, indices, sqes, cqes
      ensures Valid() && pc.Idle?
      ensures M.RoundStates(disk, start, old(trace), old(Snapshot()), t1, m, trace, Snapshot(), fi, fd, bufs)
      ensures ServedBy(m, Moves(reaping, 0), F.ReapedCqes(log.reaped))
    {
      SubmitToSq(fi, fd, bufs, submitting);
      t1, m := trace, Snapshot();
      ReadFromCq(reaping);
    }
  }

  /** The kernel consumes and completes the file's request before the program looks at the completion queue. */
  ghost predicate Prompt(disk: F.Disk, fd: int, reaping: seq<seq<KernelMove>>) {
    && fd in disk && |reaping| > 0 && |reaping[0]| >= 2
    && reaping[0][0] == Consume && reaping[0][1].Complete? && reaping[0][1].j == 0 && ResultOf(reaping) <= |disk[fd]|
  }

  /** With this result. */
  function ResultOf(reaping: seq<seq<KernelMove>>): int {
    if |reaping| > 0 && |reaping[0]| >= 2 && reaping[0][1].Complete? then reaping[0][1].res else 0
  }

  function Results(reaping: seq<seq<seq<KernelMove>>>): seq<int> {
    seq(|reaping|, i requires 0 <= i < |reaping| => ResultOf(reaping[i]))
  }

  ghost predicate AllPrompt(disk: F.Disk, fds: seq<int>, reaping: seq<seq<seq<KernelMove>>>, n: nat)
    requires n <= |fds| == |reaping|
  {
    forall i :: 0 <= i < n ==> Prompt(disk, fds[i], reaping[i])
  }

  /** The console has gained the prints of the first `n` files, in order. */
  ghost predicate Shows(disk: F.Disk, fds: seq<int>, memory: seq<seq<seq<byte>>>,
                        reaping: seq<seq<seq<KernelMove>>>, n: nat, before: seq<byte>, after: seq<byte>)
    requires n <= |fds| == |memory| == |reaping|
  {
    && (forall i :: 0 <= i < n ==> M.CanPrint(disk, fds[i], memory[i], Results(reaping)[i]))
    && after == before + M.Prints(disk, fds, memory, Results(reaping), n)
  }

  lemma ShowsNext(disk: F.Disk, fds: seq<int>, memory: seq<seq<seq<byte>>>, reaping: seq<seq<seq<KernelMove>>>, n: nat,
                  before: seq<byte>, now: seq<byte>, after: seq<byte>)
    requires n < |fds| == |memory| == |reaping|
    ensures Shows(disk, fds, memory, reaping, n, before, now)
            && M.CanPrint(disk, fds[n], memory[n], ResultOf(reaping[n]))
            && after == now + M.PrintOfRound(disk, fds[n], memory[n], ResultOf(reaping[n]))
            ==> Shows(disk, fds, memory, reaping, n + 1, before, after)
  {
  }

  /** What the loop of main() has led to after `n` rounds, and whether all is quiet then. */
  ghost predicate LoopAt(disk: F.Disk, start: R.Rings, begun: Begun, t: seq<R.Step>, now: seq<int>, console: seq<byte>,
                         quiet: bool, fds: seq<int>, memory: seq<seq<seq<byte>>>,
                         reaping: seq<seq<seq<KernelMove>>>, n: nat)
    requires n <= |fds| == |memory| == |reaping|
  {
    && now == begun.fds + fds[..n]
    && M.AreRounds(disk, start, begun.trace, t, fds, memory, n)
    && (begun.quiet && AllPrompt(disk, fds, reaping, n) ==>
          Shows(disk, fds, memory, reaping, n, begun.console, console) && quiet)
  }

  lemma LoopNext(disk: F.Disk, start: R.Rings, begun: Begun,
                 t1: seq<R.Step>, now: seq<int>, shown: seq<byte>, quiet: bool,
                 t: seq<R.Step>, console: seq<byte>, quiet': bool,
                 fds: seq<int>, memory: seq<seq<seq<byte>>>, reaping: seq<seq<seq<KernelMove>>>, n: nat)
    requires n < |fds| == |memory| == |reaping|
    requires LoopAt(disk, start, begun, t1, now, shown, quiet, fds, memory, reaping, n)
    requires M.IsRound(disk, start, t1, t, fds[n], memory[n])
    requires quiet && Prompt(disk, fds[n], reaping[n]) ==>
               && M.CanPrint(disk, fds[n], memory[n], ResultOf(reaping[n]))
               && console == shown + M.PrintOfRound(disk, fds[n], memory[n], ResultOf(reaping[n])) && quiet'
    ensures LoopAt(disk, start, begun, t, now + [fds[n]], console, quiet', fds, memory, reaping, n + 1)
  {
    Snoc(begun.fds, fds, n);
    M.RoundsSnoc(disk, start, begun.trace, t1, t, fds, memory, n);
    ShowsNext(disk, fds, memory, reaping, n, begun.console, shown, console);
  }

  lemma LoadedServes(disk: F.Disk, s: R.Rings, fi: nat, reaping: seq<seq<KernelMove>>)
    requires I.Intact(disk, s) && fi in s.heap && M.Loaded(s, F.RequestFor(fi, s.heap[fi]))
    requires Prompt(disk, s.heap[fi].fd, reaping)
    ensures Serves(disk, s, reaping[0]) && ServedCqe(s, reaping[0]) == F.Cqe(fi, ResultOf(reaping))
  {
    RingSizeBound(|s.cqes|);
    LagFacts(s.cqHead, s.cqTail);
    D.CanServe(disk, s.heap, F.RequestFor(fi, s.heap[fi]), ResultOf(reaping));
  }

  lemma PrefixTwice(a: seq<F.Cqe>, b: seq<F.Cqe>, c: seq<F.Cqe>)
    requires a <= b <= c
    ensures a <= c
  {
  }

  /** How many files open before the first that does not. */
  function Opened(fds: seq<int>): (n: nat)
    ensures n <= |fds|
  {
    if fds == [] || fds[0] < 0 then 0 else 1 + Opened(fds[1..])
  }

  lemma {:induction false} AllOpenIff(fds: seq<int>)
    ensures Opened(fds) == |fds| <==> forall i :: 0 <= i < |fds| ==> fds[i] >= 0
  {
    if fds != [] {
      AllOpenIff(fds[1..]);
      assert forall i :: 1 <= i < |fds| ==> fds[i] == fds[1..][i - 1];
    }
  }

  /** The next file opens exactly if there are more that do. */
  lemma {:induction false} OpenedIff(fds: seq<int>, i: nat)
    requires i < |fds| && i <= Opened(fds)
    ensures fds[i] >= 0 <==> i < Opened(fds)
  {
    if i > 0 {
      OpenedIff(fds[1..], i - 1);
    }
  }

  /** The descriptors that requests read from. */
  function Fds(sqes: seq<F.Sqe>): seq<int> {
    seq(|sqes|, i requires 0 <= i < |sqes| => sqes[i].fd)
  }

  lemma FdsSnoc(sqes: seq<F.Sqe>, r: F.Sqe)
    ensures Fds(sqes + [r]) == Fds(sqes) + [r.fd]
  {
  }

  lemma Snoc(before: seq<int>, fds: seq<int>, i: nat)
    requires i < |fds|
    ensures before + fds[..i + 1] == before + fds[..i] + [fds[i]]
  {
  }

  /** malloc() can always find an address that is not in use. */
  lemma FreshAddress(used: set<nat>) returns (fi: nat)
    ensures fi !in used && forall x :: x in used ==> x < fi
  {
    fi := 0;
    if used != {} {
      var x :| x in used;
      var other := FreshAddress(used - {x});
      fi := if x < other then other else x + 1;
      assert used == (used - {x}) + {x};
    }
  }
}
