/**
 setup_read, my_fopen and my_fread of example/polling.c as they run, with the kernel's thread making moves of its own
 choosing (the `kernel` arguments) in between. The ghost trace records the steps of both; Valid() says that it is a run
 of the machine in module Polling, and one without a submission, since my_fread makes none.
 */
module PollingMemory {
  import opened Bytes
  import P = Polling
  import R = PollingRuns

  datatype KernelMove = Consume | Complete(j: nat, res: int)

  /** What the kernel does during one round of the polling loop. */
  datatype Round = Round(beforePeek: seq<KernelMove>, beforeWrite: seq<KernelMove>,
                         beforeUpdate: seq<KernelMove>, beforeSeen: seq<KernelMove>)

  function Moves(round: Round): nat {
    |round.beforePeek| + |round.beforeWrite| + |round.beforeUpdate| + |round.beforeSeen|
  }

  /**
   From `n` completions in the queue to `m` in one poll: the oldest is taken off if there is one, and what the kernel
   adds meanwhile is no more than it makes moves. One that it adds in time for the poll may be taken off as well.
   */
  predicate Polled(n: nat, m: nat, round: Round) {
    && n - 1 <= m <= n + Moves(round) - (if n > 0 then 1 else 0)
  }

  predicate QuietFrom(kernel: seq<Round>, k: nat) {
    forall i :: k <= i < |kernel| ==> Moves(kernel[i]) == 0
  }

  /** Polls without moves of the kernel take one completion each, and so all that wait if there are enough polls. */
  lemma {:induction false} QuietDrains(kernel: seq<Round>, waiting: seq<nat>, k: nat)
    requires |waiting| == |kernel| + 1
    requires forall i :: 0 <= i < |kernel| ==> Polled(waiting[i], waiting[i + 1], kernel[i])
    requires k <= |kernel| && QuietFrom(kernel, k) && waiting[k] <= |kernel| - k
    ensures waiting[|kernel|] == 0
    decreases |kernel| - k
  {
    if k < |kernel| {
      assert Polled(waiting[k], waiting[k + 1], kernel[k]);
      QuietDrains(kernel, waiting, k + 1);
    }
  }

  class Poller {
    const disk: P.Disk
    const files: array<P.File>
    var prepared: seq<P.Sqe>
    var published: seq<P.Sqe>
    var inflight: seq<P.Sqe>
    var cq: seq<P.Cqe>
    var numFiles: int
    var stdout: seq<P.Chunk>
    ghost var pc: P.Pc
    ghost var failed: set<nat>
    ghost var handled: nat
    ghost const fds: seq<int>
    ghost const bufs: seq<seq<byte>>
    ghost var trace: seq<P.Step>

    ghost function Snapshot(): P.State
      reads this, files
    {
      P.State(files[..], prepared, published, inflight, cq, numFiles, pc, stdout, failed, handled)
    }

    ghost predicate Valid()
      reads this, files
    {
      && R.CanStart(disk, fds, bufs)
      && R.NoSubmit(trace)
      && R.Legal(disk, R.Started(fds, bufs), trace)
      && R.Exec(disk, R.Started(fds, bufs), trace) == Snapshot()
    }

    /** Records that the step just taken is one of the machine's. */
    ghost method Took(before: P.State, step: P.Step)
      requires R.CanStart(disk, fds, bufs) && R.NoSubmit(trace) && !step.Submit?
      requires R.Legal(disk, R.Started(fds, bufs), trace) && R.Exec(disk, R.Started(fds, bufs), trace) == before
      requires P.Enabled(disk, before, step) && Snapshot() == P.Apply(disk, before, step)
      modifies this`trace
      ensures Valid()
    {
      R.RunSnoc(disk, R.Started(fds, bufs), trace, step);
      trace := trace + [step];
    }

    lemma Known()
      requires Valid()
      ensures P.Inv(disk, Snapshot())
    {
      R.StartedInv(disk, fds, bufs);
      R.RunKeeps(disk, R.Started(fds, bufs), trace);
    }

    // -------------------------------------------------------------- my_fopen

    /** Opens the files; `fds` are the results of open() and `bufs` what the buffers happen to hold. */
    constructor (disk: P.Disk, fds: seq<int>, bufs: seq<seq<byte>>)
      requires R.CanStart(disk, fds, bufs)
      ensures Valid() && pc.AtPeek? && trace == [] && Snapshot() == R.Started(fds, bufs)
      ensures this.disk == disk && this.fds == fds && this.bufs == bufs
    {
      this.disk, this.fds, this.bufs := disk, fds, bufs;
      files := new P.File[|fds|](i requires 0 <= i < |bufs| => P.File(false, -1, 0, bufs[i]));
      numFiles := |fds|;
      prepared, published, inflight, cq, stdout := [], [], [], [], [];
      pc, failed, handled, trace := P.AtPeek, {}, 0, [];
      new;
      OpenAll(fds, bufs);
      published, prepared := published + prepared, [];   // io_uring_submit
    }

    /** The loop of my_fopen has dealt with the first `i` files; the others are as they were. */
    ghost predicate OpenedUpTo(fds: seq<int>, bufs: seq<seq<byte>>, i: nat)
      requires i <= |fds| == |bufs|
      reads this`prepared, files
    {
      && files.Length == |fds|
      && (forall k :: i <= k < |fds| ==> files[k] == P.File(false, -1, 0, bufs[k]))
      && files[..i] == R.OpenFiles(fds, bufs)[..i]
      && prepared == R.Requests(files[..i]) && |prepared| <= i
    }

    /** The loop of my_fopen. */
    method OpenAll(fds: seq<int>, bufs: seq<seq<byte>>)
      requires |fds| == |bufs| <= P.QUEUE_DEPTH && OpenedUpTo(fds, bufs, 0) && published == []
      modifies this`prepared, files
      ensures files[..] == R.OpenFiles(fds, bufs) && prepared == R.Requests(files[..])
    {
      var i := 0;
      while i < |fds|
        invariant 0 <= i <= |fds| && OpenedUpTo(fds, bufs, i)
      {
        OpenOne(i, fds[i]);
        assert files[..i + 1][..i] == files[..i];
        i := i + 1;
      }
      assert files[..] == files[..i] == R.OpenFiles(fds, bufs);
    }

    /** One round of the loop of my_fopen, open() having returned `fd`. */
    method OpenOne(i: nat, fd: int)
      requires i < files.Length && files[i] == P.File(false, -1, 0, files[i].buf)
      requires |prepared| < P.QUEUE_DEPTH && published == []
      modifies this`prepared, files
      ensures files[..] == old(files[..])[i := R.Opened(fd, old(files[i].buf))]
      ensures prepared == old(prepared) + if fd >= 0 then [P.ReadRequest(i, files[i])] else []
    {
      if fd < 0 {
        return;
      }
      files[i] := P.File(true, fd, 0, files[i].buf);
      SetupRead(i);
    }

    // -------------------------------------------------------------- setup_read

    method SetupRead(i: nat)
      requires i < files.Length
      modifies this`prepared
      ensures Snapshot() == P.SetupRead(old(Snapshot()), i)
      ensures P.HasSqe(old(Snapshot())) && |files[i].buf| == P.BUFFER_SIZE ==>
                && |prepared| == |old(prepared)| + 1
                && var r := prepared[|prepared| - 1];
                   r == P.Sqe(files[i].fd, files[i].offset, i, |files[i].buf|, i)
    {
      if |prepared| + |published| >= P.QUEUE_DEPTH {
        return;   // io_uring_get_sqe() has no slot
      }
      var f := files[i];
      prepared := prepared + [P.Sqe(f.fd, f.offset, i, P.BUFFER_SIZE, i)];
    }

    // -------------------------------------------------------------- the kernel's thread

    method Kernel(moves: seq<KernelMove>)
      requires Valid()
      modifies this`inflight, this`published, this`cq, this`trace, files
      ensures Valid()
      ensures old(cq) <= cq && |cq| <= |old(cq)| + |moves|
      ensures forall k :: 0 <= k < files.Length ==> files[k].offset == old(files[k].offset)
    {
      var k := 0;
      while k < |moves|
        invariant 0 <= k <= |moves| && Valid()
        invariant old(cq) <= cq && |cq| <= |old(cq)| + k
        invariant forall k :: 0 <= k < files.Length ==> files[k].offset == old(files[k].offset)
      {
        match moves[k] {
          case Consume =>
            if published != [] {
              KernelConsume();
            }
          case Complete(j, res) =>
            if P.Enabled(disk, KernelView(), P.Complete(j, res)) {
              KernelComplete(j, res);
            }
        }
        k := k + 1;
      }
    }

    /** What the kernel needs to see to decide on a completion. */
    function KernelView(): P.State
      reads this, files
    {
      P.State(files[..], prepared, published, inflight, cq, numFiles, P.AtPeek, stdout, {}, 0)
    }

    method KernelConsume()
      requires Valid() && published != []
      modifies this`inflight, this`published, this`trace
      ensures Valid() && Snapshot() == P.Apply(disk, old(Snapshot()), P.Consume)
    {
      ghost var before := Snapshot();
      inflight, published := inflight + [published[0]], published[1..];
      Took(before, P.Consume);
    }

    method KernelComplete(j: nat, res: int)
      requires Valid() && P.Enabled(disk, Snapshot(), P.Complete(j, res))
      modifies this`inflight, this`cq, this`trace, files
      ensures Valid() && Snapshot() == P.Apply(disk, old(Snapshot()), P.Complete(j, res))
    {
      ghost var before := Snapshot();
      var sqe := inflight[j];
      if res > 0 {
        var f := files[sqe.addr];
        files[sqe.addr] := f.(buf := disk[sqe.fd][sqe.off..sqe.off + res] + f.buf[res..]);
      }
      cq := cq + [P.Cqe(sqe.userData, res)];
      inflight := inflight[..j] + inflight[j + 1..];
      Took(before, P.Complete(j, res));
    }

    // -------------------------------------------------------------- my_fread

    /**
     The polling loop, watched for as many polls as `kernel` has rounds; `waiting` is how many completions are in the
     queue at the start of each and at the end. When it has returned, every file was opened and was printed whole or
     reported as failed; and a file of which no read failed was empty, because nothing that the loop prepares is ever
     submitted. As long as it has not, each poll that finds a completion deals with it, so that polls enough leave none
     waiting once the kernel has become quiet.
     */
    method MyFread(kernel: seq<Round>) returns (ghost waiting: seq<nat>)
      requires Valid() && pc.AtPeek?
      modifies this`prepared, this`published, this`inflight, this`cq, this`numFiles, this`stdout
      modifies this`pc, this`failed, this`handled, this`trace, files
      ensures Valid() && pc.AtPeek? && P.Inv(disk, Snapshot())
      ensures numFiles == 0 ==> forall i: nat :: i < files.Length ==>
                files[i].isOpen && (i in failed || R.Whole(disk, Snapshot(), i))
      ensures numFiles == 0 ==> R.EmptyOrFailed(disk, fds, failed)
      ensures 1 <= |waiting| <= |kernel| + 1 && waiting[0] == |old(cq)| && waiting[|waiting| - 1] == |cq|
      ensures forall i :: 0 <= i < |waiting| - 1 ==> Polled(waiting[i], waiting[i + 1], kernel[i])
      ensures numFiles == 0 || |waiting| == |kernel| + 1
      ensures numFiles == 0 || handled - old(handled) >= (if |kernel| < |old(cq)| then |kernel| else |old(cq)|)
      ensures numFiles == 0 || forall k ::
                0 <= k <= |kernel| && QuietFrom(kernel, k) && waiting[k] <= |kernel| - k ==> cq == []
    {
      var round := 0;
      waiting := [|cq|];
      while numFiles > 0 && round < |kernel|
        invariant Valid() && pc.AtPeek? && 0 <= round == |waiting| - 1 <= |kernel|
        invariant waiting[0] == |old(cq)| && waiting[round] == |cq|
        invariant forall i :: 0 <= i < round ==> Polled(waiting[i], waiting[i + 1], kernel[i])
        invariant |cq| >= |old(cq)| - round
        invariant handled - old(handled) >= (if round < |old(cq)| then round else |old(cq)|)
        decreases |kernel| - round
      {
        Poll(kernel[round]);
        waiting := waiting + [|cq|];
        round := round + 1;
      }
      Finished(kernel, waiting);
    }

    lemma Finished(kernel: seq<Round>, waiting: seq<nat>)
      requires Valid() && pc.AtPeek?
      requires 1 <= |waiting| <= |kernel| + 1 && waiting[|waiting| - 1] == |cq|
      requires forall i :: 0 <= i < |waiting| - 1 ==> Polled(waiting[i], waiting[i + 1], kernel[i])
      requires numFiles <= 0 || |waiting| == |kernel| + 1
      ensures P.Inv(disk, Snapshot()) && numFiles >= 0
      ensures numFiles == 0 ==> forall i: nat :: i < files.Length ==>
                files[i].isOpen && (i in failed || R.Whole(disk, Snapshot(), i))
      ensures numFiles == 0 ==> R.EmptyOrFailed(disk, fds, failed)
      ensures numFiles == 0 || forall k ::
                0 <= k <= |kernel| && QuietFrom(kernel, k) && waiting[k] <= |kernel| - k ==> cq == []
    {
      Known();
      if numFiles == 0 {
        R.ZeroMeansDone(disk, Snapshot());
        R.ReturnedMeansEmpty(disk, fds, bufs, trace);
      } else {
        forall k | 0 <= k <= |kernel| && QuietFrom(kernel, k) && waiting[k] <= |kernel| - k
          ensures cq == []
        {
          QuietDrains(kernel, waiting, k);
        }
      }
    }

    /** One poll, and what it finds to do. */
    method Poll(kernel: Round)
      requires Valid() && pc.AtPeek? && numFiles > 0
      modifies this`prepared, this`published, this`inflight, this`cq, this`numFiles, this`stdout
      modifies this`pc, this`failed, this`handled, this`trace, files
      ensures Valid() && pc.AtPeek? && Polled(|old(cq)|, |cq|, kernel)
      ensures handled >= old(handled) + if old(cq) != [] then 1 else 0
    {
      Kernel(kernel.beforePeek);
      if cq != [] {
        OneCompletion(kernel);
      }
    }

    /** Deals with the oldest completion. */
    method OneCompletion(kernel: Round)
      requires Valid() && pc.AtPeek? && numFiles > 0 && cq != []
      modifies this`prepared, this`published, this`inflight, this`cq, this`numFiles, this`stdout
      modifies this`pc, this`failed, this`handled, this`trace, files
      ensures Valid() && pc.AtPeek? && handled == old(handled) + 1
      ensures |old(cq)| <= |cq| + 1 <= |old(cq)| + Moves(kernel) - |kernel.beforePeek|
    {
      var cqe := Peek();
      WriteUnderway(cqe, kernel);
      UpdateUnderway(cqe, kernel);
      MarkSeen();
    }

    /** io_uring_peek_cqe, with a completion there */
    method Peek() returns (cqe: P.Cqe)
      requires Valid() && pc.AtPeek? && numFiles > 0 && cq != []
      modifies this`pc, this`trace
      ensures Valid() && pc.AtWrite? && cqe == cq[0]
    {
      ghost var before := Snapshot();
      cqe := cq[0];
      pc := P.AtWrite;
      Took(before, P.Peek);
    }

    method WriteUnderway(cqe: P.Cqe, kernel: Round)
      requires Valid() && pc.AtWrite? && cq != [] && cqe == cq[0]
      modifies this`inflight, this`published, this`cq, this`stdout, this`pc, this`trace, files
      ensures Valid() && pc.AtUpdate? && cq != [] && cqe == cq[0]
      ensures |old(cq)| <= |cq| <= |old(cq)| + |kernel.beforeWrite|
    {
      Kernel(kernel.beforeWrite);
      WriteOut(cqe);
    }

    method UpdateUnderway(cqe: P.Cqe, kernel: Round)
      requires Valid() && pc.AtUpdate? && cq != [] && cqe == cq[0]
      modifies this`prepared, this`published, this`inflight, this`cq, this`numFiles
      modifies this`pc, this`failed, this`handled, this`trace, files
      ensures Valid() && pc.AtSeen? && cq != [] && handled == old(handled) + 1
      ensures |old(cq)| <= |cq| <= |old(cq)| + |kernel.beforeUpdate| + |kernel.beforeSeen|
    {
      Kernel(kernel.beforeUpdate);
      Update(cqe);
      Kernel(kernel.beforeSeen);
    }

    /** io_uring_cqe_seen */
    method MarkSeen()
      requires Valid() && pc.AtSeen? && cq != []
      modifies this`cq, this`pc, this`trace
      ensures Valid() && pc.AtPeek? && Snapshot() == P.Apply(disk, old(Snapshot()), P.Seen)
    {
      ghost var before := Snapshot();
      cq := cq[1..];
      pc := P.AtPeek;
      Took(before, P.Seen);
    }

    method WriteOut(cqe: P.Cqe)
      requires Valid() && pc.AtWrite? && cq != [] && cqe == cq[0]
      modifies this`stdout, this`pc, this`trace
      ensures Valid() && pc.AtUpdate?
      ensures P.Enabled(disk, old(Snapshot()), P.Write) && Snapshot() == P.Apply(disk, old(Snapshot()), P.Write)
    {
      ghost var before := Snapshot();
      OldestFits();
      var fi := cqe.userData;
      if cqe.res > 0 {
        stdout := stdout + [P.Chunk(fi, files[fi].buf[..cqe.res])];
      }
      pc := P.AtUpdate;
      Took(before, P.Write);
    }

    lemma OldestFits()
      requires Valid() && (pc.AtWrite? || pc.AtUpdate?) && cq != []
      ensures cq[0].userData < files.Length && cq[0].res <= |files[cq[0].userData].buf|
    {
      Known();
      assert P.CqeOk(disk, files[..], P.LiveCq(Snapshot())[0]);
    }

    method Update(cqe: P.Cqe)
      requires Valid() && pc.AtUpdate? && cq != [] && cqe == cq[0]
      modifies this`prepared, this`numFiles, this`pc, this`failed, this`handled, this`trace, files
      ensures Valid() && pc.AtSeen?
      ensures P.Enabled(disk, old(Snapshot()), P.Update) && Snapshot() == P.Apply(disk, old(Snapshot()), P.Update)
    {
      ghost var before := Snapshot();
      OldestFits();
      var fi := cqe.userData;
      if cqe.res < 0 {
        numFiles := numFiles - 1;
        failed := failed + {fi};
      } else if cqe.res > 0 {
        files[fi] := files[fi].(offset := files[fi].offset + cqe.res);
        SetupRead(fi);
      } else {
        numFiles := numFiles - 1;
      }
      pc := P.AtSeen;
      handled := handled + 1;
      Took(before, P.Update);
    }
  }
}
