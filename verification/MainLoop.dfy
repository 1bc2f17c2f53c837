/**
 One round of the loop in main(): a submission, then a reap. What a round is as a run of the rings, and what it adds to
 the output when the kernel serves the round's request in time.
 */
module MainLoop {
  import opened Words
  import opened Bytes
  import opened Ring
  import opened RingIntact
  import opened RingRuns
  import opened Submission
  import opened Drain
  import F = Fifo

  // ---------------------------------------------------------------- the shape of the loop's runs

  /** A reap of read_from_cq after trace `t0`: from the read of the head to the store to it. */
  ghost predicate WholeReap(t0: seq<Step>, t: seq<Step>) {
    |t0| + 2 <= |t| && OnlyReaping(t0 + [BeginReap], t) && t[|t| - 1].PublishHead?
  }

  ghost function PostedAt(disk: F.Disk, start: Rings, t: seq<Step>): seq<F.Cqe> {
    if RingSizes(start) && Legal(disk, start, t) then Exec(disk, start, t).log.posted else []
  }

  ghost function ReapedAt(disk: F.Disk, start: Rings, t: seq<Step>): seq<F.Cqe> {
    if RingSizes(start) && Legal(disk, start, t) then F.ReapedCqes(Exec(disk, start, t).log.reaped) else []
  }

  /**
   From trace `t0` to `t` the file open at `fd` has been submitted, and then all that was posted by the time that was
   done, or more, has been reaped.
   */
  ghost predicate IsRound(disk: F.Disk, start: Rings, t0: seq<Step>, t: seq<Step>, fd: int, bufs: seq<seq<byte>>) {
    exists m, fi ::
      && 0 <= m <= |t| && OnlySubmission(t0, BeginSubmit(fi, fd, bufs), t[..m]) && WholeReap(t[..m], t)
      && PostedAt(disk, start, t[..m]) <= ReapedAt(disk, start, t)
  }

  /** From trace `t0` to `t` there has been such a round for each of the first `n` files, in order, and nothing else. */
  ghost predicate AreRounds(disk: F.Disk, start: Rings, t0: seq<Step>, t: seq<Step>, fds: seq<int>,
                            memory: seq<seq<seq<byte>>>, n: nat)
    requires n <= |fds| == |memory|
    decreases n
  {
    if n == 0 then t == t0 else
      exists k ::
        && 0 <= k <= |t| && AreRounds(disk, start, t0, t[..k], fds, memory, n - 1)
        && IsRound(disk, start, t[..k], t, fds[n - 1], memory[n - 1])
  }

  lemma RoundExtends(disk: F.Disk, start: Rings, t0: seq<Step>, t: seq<Step>, fd: int, bufs: seq<seq<byte>>)
    requires IsRound(disk, start, t0, t, fd, bufs)
    ensures t0 <= t
  {
    var m, fi :| 0 <= m <= |t| && OnlySubmission(t0, BeginSubmit(fi, fd, bufs), t[..m]);
    SubmissionSteps(t0, BeginSubmit(fi, fd, bufs), t[..m]);
    assert t[..m][..|t0|] == t[..|t0|];
  }

  lemma RoundsSnoc(disk: F.Disk, start: Rings, t0: seq<Step>, t1: seq<Step>, t: seq<Step>,
                   fds: seq<int>, memory: seq<seq<seq<byte>>>, n: nat)
    requires n < |fds| == |memory|
    requires AreRounds(disk, start, t0, t1, fds, memory, n) && IsRound(disk, start, t1, t, fds[n], memory[n])
    ensures AreRounds(disk, start, t0, t, fds, memory, n + 1)
  {
    RoundExtends(disk, start, t1, t, fds[n], memory[n]);
    assert t[..|t1|] == t1;
  }

  // ---------------------------------------------------------------- a round that begins with quiet rings

  /** One request waits to be consumed, and nothing else is going on. */
  ghost predicate Loaded(s: Rings, r: F.Sqe) {
    && RingSizes(s) && s.pc.Idle? && s.sqHead != s.sqTail && s.inflight == [] && s.cqHead == s.cqTail
    && s.sqes[Slot(s.sqHead, |s.sqes|)] == r
  }

  /** What the kernel's thread has done. */
  ghost predicate KernelStoodStill(s: Rings, e: Rings) {
    && e.sqHead == s.sqHead && e.inflight == s.inflight && e.cqHead == s.cqHead && e.cqTail == s.cqTail
    && e.log.consumed == s.log.consumed && e.log.posted == s.log.posted
  }

  /** With nothing to consume and nothing in flight the kernel has no moves while a submission is under way. */
  lemma {:induction false} RestIsIdle(disk: F.Disk, s: Rings, steps: seq<Step>)
    requires Rest(disk, s, steps) && s.sqHead == s.sqTail && s.inflight == []
    ensures KernelStoodStill(s, Exec(disk, s, steps)) && Exec(disk, s, steps).pc.Idle?
    decreases |steps|
  {
    if |steps| == 1 {
      assert steps[1..] == [];
    } else {
      assert InBetween(steps[0]);
      assert forall i :: 0 <= i < |steps[1..]| - 1 ==> steps[1..][i] == steps[i + 1];
      RestIsIdle(disk, Apply(disk, s, steps[0]), steps[1..]);
    }
  }

  lemma SubmittedFromQuiet(disk: F.Disk, s: Rings, begin: Step, steps: seq<Step>, e: Rings, r: F.Sqe)
    requires Intact(disk, s) && Intact(disk, e) && Quiet(s) && begin.BeginSubmit? && Enabled(disk, s, begin)
    requires Amounts(disk, s, begin, steps, e, r)
    ensures Loaded(e, r) && e.log.posted == s.log.posted && SqCount(s) < |s.sqes|
  {
    LagFacts(s.sqHead, s.sqTail);
    assert SqCount(s) == 0;
    RingSizeBound(|s.sqes|);
    RestIsIdle(disk, Apply(disk, s, begin), steps[1..]);
    assert e == Exec(disk, Apply(disk, s, begin), steps[1..]);
    assert SqQueue(s) == [];
    OnlyRequest(e, r, s.log.consumed);
  }

  lemma OnlyRequest(e: Rings, r: F.Sqe, consumed: seq<F.Sqe>)
    requires RingSizes(e) && SlotsNamed(e) && Taken(e) == consumed + [] + [r] && e.log.consumed == consumed
    ensures e.sqHead != e.sqTail && e.sqes[Slot(e.sqHead, |e.sqes|)] == r
  {
    assert SqQueue(e) == Taken(e)[|consumed|..] == [r];
    LagFacts(e.sqHead, e.sqTail);
    QueuePops(e);
    assert SqQueue(e)[0] == [r][0];
  }

  /** Where all is quiet, as many have been reaped as submitted. */
  lemma QuietCounts(disk: F.Disk, s: Rings)
    requires Good(disk, s) && Quiet(s)
    ensures |s.log.submitted| == |s.log.reaped| == |s.log.posted|
  {
    LagFacts(s.sqHead, s.sqTail);
    LagFacts(s.cqHead, s.cqTail);
    F.Counts(Abs(s));
  }

  lemma CountedMeansQuiet(disk: F.Disk, s: Rings)
    requires Good(disk, s) && s.pc.Idle? && |s.log.submitted| <= |s.log.reaped|
    ensures Quiet(s)
  {
    F.Counts(Abs(s));
    LagFacts(s.sqHead, s.sqTail);
    LagFacts(s.cqHead, s.cqTail);
  }

  /**
   A round that began with quiet rings and in which a completion was posted in time has reaped just that one, and
   printed what it says; the rings are quiet again.
   */
  lemma RoundAddsOne(disk: F.Disk, s: Rings, e: Rings, r: F.Sqe, x: F.Cqe)
    requires Good(disk, s) && Quiet(s) && Good(disk, e) && e.pc.Idle?
    requires e.log.submitted == s.log.submitted + [r] && s.log.reaped <= e.log.reaped
    requires s.log.posted + [x] <= F.ReapedCqes(e.log.reaped) && x.userData == r.userData
    ensures Quiet(e) && |e.log.reaped| == |s.log.reaped| + 1 && e.log.reaped[|s.log.reaped|].cqe == x
    ensures F.Delivers(disk, e.heap, e.log.memory, x, e.log.reaped[|s.log.reaped|].printed)
    ensures x.userData in e.heap && e.heap[x.userData].fd == r.fd
  {
    QuietCounts(disk, s);
    CountedMeansQuiet(disk, e);
    QuietCounts(disk, e);
    var n := |s.log.reaped|;
    assert F.ReapedCqes(e.log.reaped)[n] == (s.log.posted + [x])[n];
    assert e.log.submitted[n] == r;
  }

  // ---------------------------------------------------------------- memory

  lemma {:induction false} MemoryStays(disk: F.Disk, s: Rings, steps: seq<Step>)
    requires RingSizes(s) && Legal(disk, s, steps) && forall i :: 0 <= i < |steps| ==> !steps[i].BeginSubmit?
    ensures Exec(disk, s, steps).log.memory == s.log.memory
    decreases |steps|
  {
    if steps != [] {
      assert forall i :: 0 <= i < |steps[1..]| ==> steps[1..][i] == steps[i + 1];
      MemoryStays(disk, Apply(disk, s, steps[0]), steps[1..]);
    }
  }

  /** What is recorded of the memory of a new file_info is what the blocks handed out for it hold. */
  ghost predicate Remembers(disk: F.Disk, before: map<nat, seq<byte>>, after: map<nat, seq<byte>>,
                            fi: nat, fd: int, bufs: seq<seq<byte>>)
  {
    fd in disk && |disk[fd]| <= |Flatten(bufs)| && after == before[fi := Flatten(bufs)[..|disk[fd]|]]
  }

  lemma BeginMemory(disk: F.Disk, s: Rings, fi: nat, fd: int, bufs: seq<seq<byte>>)
    requires RingSizes(s) && Enabled(disk, s, BeginSubmit(fi, fd, bufs))
    ensures Remembers(disk, s.log.memory, Apply(disk, s, BeginSubmit(fi, fd, bufs)).log.memory, fi, fd, bufs)
  {
    F.MemoryIsHandedOut(disk, s.heap, fi, fd, bufs);
  }

  lemma WholeMemory(disk: F.Disk, s: Rings, begin: Step, steps: seq<Step>)
    requires Whole(disk, s, begin, steps)
    ensures Exec(disk, s, steps).log.memory == Apply(disk, s, begin).log.memory
  {
    assert forall i :: 0 <= i < |steps[1..]| - 1 ==> !steps[1..][i].BeginSubmit?;
    MemoryStays(disk, Apply(disk, s, begin), steps[1..]);
  }

  lemma SubmissionMemory(disk: F.Disk, s: Rings, fi: nat, fd: int, bufs: seq<seq<byte>>, steps: seq<Step>, e: Rings,
                         r: F.Sqe)
    requires RingSizes(s) && Enabled(disk, s, BeginSubmit(fi, fd, bufs))
    requires Amounts(disk, s, BeginSubmit(fi, fd, bufs), steps, e, r)
    ensures Remembers(disk, s.log.memory, e.log.memory, fi, fd, bufs)
  {
    WholeMemory(disk, s, BeginSubmit(fi, fd, bufs), steps);
    BeginMemory(disk, s, fi, fd, bufs);
  }

  /** What a reap leaves alone: whether there was room, what waits to be consumed, and what is known of memory. */
  lemma ReapLeaves(disk: F.Disk, start: Rings, t0: seq<Step>, s: Rings, t: seq<Step>, e: Rings)
    requires Reached(disk, start, t0, s) && Reached(disk, start, t, e) && WholeReap(t0, t)
    ensures e.log.memory == s.log.memory && SqCount(e) <= SqCount(s)
    ensures Careful(disk, start, t) <==> Careful(disk, start, t0)
  {
    var steps := t[|t0|..];
    assert (t0 + [BeginReap])[..|t0|] == t0;
    assert t == t0 + steps && forall i :: 0 <= i < |steps| ==> IsReaping(steps[i]);
    RunSplit(disk, start, t0, steps);
    ReachedIsIntact(disk, start, t0, s);
    MemoryStays(disk, s, steps);
    ReapingIsCareful(disk, s, steps);
  }

  // ---------------------------------------------------------------- the output of the loop

  /** What is printed for the first `n` files if they are served one by one with these results. */
  function Prints(disk: F.Disk, fds: seq<int>, memory: seq<seq<seq<byte>>>, results: seq<int>, n: nat): seq<byte>
    requires n <= |fds| == |memory| == |results|
    requires forall i :: 0 <= i < n ==> CanPrint(disk, fds[i], memory[i], results[i])
  {
    if n == 0 then [] else
      Prints(disk, fds, memory, results, n - 1) + PrintOfRound(disk, fds[n - 1], memory[n - 1], results[n - 1])
  }

  predicate CanPrint(disk: F.Disk, fd: int, bufs: seq<seq<byte>>, res: int) {
    fd in disk && res <= |disk[fd]| <= |Flatten(bufs)|
  }

  /** The bytes read, and then what the memory handed out for the file holds. */
  function PrintOfRound(disk: F.Disk, fd: int, bufs: seq<seq<byte>>, res: int): seq<byte>
    requires CanPrint(disk, fd, bufs, res)
  {
    F.Filled(disk[fd], res, Flatten(bufs)[..|disk[fd]|])
  }

  // ---------------------------------------------------------------- what the two calls of a round make of it

  /** The states before, between and after the two calls, as their contracts relate them. */
  ghost predicate RoundStates(disk: F.Disk, start: Rings, t0: seq<Step>, s: Rings, t1: seq<Step>, m: Rings,
                              t: seq<Step>, e: Rings, fi: nat, fd: int, bufs: seq<seq<byte>>)
  {
    && Reached(disk, start, t0, s) && Reached(disk, start, t1, m) && Reached(disk, start, t, e) && e.pc.Idle?
    && OnlySubmission(t0, BeginSubmit(fi, fd, bufs), t1) && WholeReap(t1, t)
    && fi in m.heap && m.heap[fi].fd == fd
    && m.log.submitted == s.log.submitted + [F.RequestFor(fi, m.heap[fi])] && e.log.submitted == m.log.submitted
    && m.log.reaped == s.log.reaped && m.log.reaped <= e.log.reaped && m.log.posted <= F.ReapedCqes(e.log.reaped)
    && Remembers(disk, s.log.memory, m.log.memory, fi, fd, bufs) && e.log.memory == m.log.memory
    && SqCount(e) <= SqCount(m) <= SqCount(s) + 1
    && (Careful(disk, start, t0) && SqCount(s) < |s.sqes| ==> Careful(disk, start, t1))
    && (Careful(disk, start, t1) ==> Careful(disk, start, t))
    && (Quiet(s) ==> Loaded(m, F.RequestFor(fi, m.heap[fi])) && m.log.posted == s.log.posted)
  }

  lemma RoundStatesAreRound(disk: F.Disk, start: Rings, t0: seq<Step>, s: Rings, t1: seq<Step>, m: Rings,
                            t: seq<Step>, e: Rings, fi: nat, fd: int, bufs: seq<seq<byte>>)
    requires RoundStates(disk, start, t0, s, t1, m, t, e, fi, fd, bufs)
    ensures IsRound(disk, start, t0, t, fd, bufs)
  {
    assert t[..|t1|] == t1 by {
      assert (t1 + [BeginReap])[..|t1|] == t1;
    }
    assert OnlySubmission(t0, BeginSubmit(fi, fd, bufs), t[..|t1|]);
  }

  lemma QuietIsCareful(disk: F.Disk, start: Rings, t0: seq<Step>, s: Rings, t1: seq<Step>, m: Rings,
                       t: seq<Step>, e: Rings, fi: nat, fd: int, bufs: seq<seq<byte>>)
    requires RoundStates(disk, start, t0, s, t1, m, t, e, fi, fd, bufs) && Quiet(s) && Careful(disk, start, t0)
    ensures Careful(disk, start, t)
  {
    LagFacts(s.sqHead, s.sqTail);
    RingSizeBound(|s.sqes|);
  }

  /** A round from quiet rings whose completion is posted in time with `res` prints the file it is for. */
  lemma RoundPrints(disk: F.Disk, start: Rings, t0: seq<Step>, s: Rings, t1: seq<Step>, m: Rings,
                    t: seq<Step>, e: Rings, fi: nat, fd: int, bufs: seq<seq<byte>>, res: int)
    requires RoundStates(disk, start, t0, s, t1, m, t, e, fi, fd, bufs) && Quiet(s) && Careful(disk, start, t0)
    requires m.log.posted + [F.Cqe(fi, res)] <= F.ReapedCqes(e.log.reaped)
    ensures Quiet(e) && CanPrint(disk, fd, bufs, res)
    ensures Stdout(e.log.reaped) == Stdout(s.log.reaped) + PrintOfRound(disk, fd, bufs, res)
  {
    QuietIsCareful(disk, start, t0, s, t1, m, t, e, fi, fd, bufs);
    ReachedIsGood(disk, start, t0, s);
    ReachedIsGood(disk, start, t, e);
    RoundAddsOne(disk, s, e, F.RequestFor(fi, m.heap[fi]), F.Cqe(fi, res));
    AddsPrint(disk, s.log.reaped, e.log.reaped, PrintOfRound(disk, fd, bufs, res));
  }

  lemma AddsPrint(disk: F.Disk, before: seq<F.Reaped>, after: seq<F.Reaped>, printed: seq<byte>)
    requires before <= after && |after| == |before| + 1 && after[|before|].printed == printed
    ensures Stdout(after) == Stdout(before) + printed
  {
    assert after == before + [after[|before|]];
    StdoutSnoc(before, after[|before|]);
  }

  function Concat(disk: F.Disk, fds: seq<int>, n: nat): seq<byte>
    requires n <= |fds| && forall i :: 0 <= i < n ==> fds[i] in disk
  {
    if n == 0 then [] else Concat(disk, fds, n - 1) + disk[fds[n - 1]]
  }

  /** With complete reads that is the files, one after the other. */
  lemma {:induction false} CompleteReadsPrintFiles(disk: F.Disk, fds: seq<int>, memory: seq<seq<seq<byte>>>,
                                                   results: seq<int>, n: nat)
    requires n <= |fds| == |memory| == |results|
    requires forall i :: 0 <= i < n ==>
               CanPrint(disk, fds[i], memory[i], results[i]) && results[i] == |disk[fds[i]]|
    ensures Prints(disk, fds, memory, results, n) == Concat(disk, fds, n)
  {
    if n > 0 {
      CompleteReadsPrintFiles(disk, fds, memory, results, n - 1);
      assert PrintOfRound(disk, fds[n - 1], memory[n - 1], results[n - 1]) == disk[fds[n - 1]];
    }
  }
}
