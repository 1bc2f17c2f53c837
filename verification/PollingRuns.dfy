/** Whole runs of the polling program: what its output is, how long it can run, and when it can end. */
module PollingRuns {
  import opened Words
  import opened Bytes
  import opened Polling

  // ---------------------------------------------------------------- the start

  ghost predicate CanStart(disk: Disk, fds: seq<int>, bufs: seq<seq<byte>>) {
    && 1 <= |fds| <= 16 && |bufs| == |fds|
    && forall i :: 0 <= i < |fds| ==> |bufs[i]| == 4096 && (fds[i] >= 0 ==> fds[i] in disk)
  }

  /** `files` after the loop of my_fopen; a negative descriptor is a failed open(). */
  function OpenFiles(fds: seq<int>, bufs: seq<seq<byte>>): (files: seq<File>)
    requires |bufs| == |fds|
    ensures |files| == |fds|
  {
    seq(|fds|, i requires 0 <= i < |fds| => Opened(fds[i], bufs[i]))
  }

  /** An entry of `files` whose open() returned `fd`; a failed one keeps no descriptor. */
  function Opened(fd: int, buf: seq<byte>): File {
    File(fd >= 0, if fd >= 0 then fd else -1, 0, buf)
  }

  predicate OpenedAs(fds: seq<int>, files: seq<File>) {
    && |files| == |fds|
    && forall i :: 0 <= i < |fds| ==> files[i].isOpen == (fds[i] >= 0) && (fds[i] >= 0 ==> files[i].fd == fds[i])
  }

  /** The requests that loop prepares. */
  function Requests(files: seq<File>): seq<Sqe> {
    if files == [] then [] else
      var n := |files| - 1;
      Requests(files[..n]) + (if files[n].isOpen then [ReadRequest(n, files[n])] else [])
  }

  /** The state my_fopen returns in: everything prepared has been submitted, and all files are counted. */
  function Started(fds: seq<int>, bufs: seq<seq<byte>>): State
    requires |bufs| == |fds|
  {
    var files := OpenFiles(fds, bufs);
    State(files, [], Requests(files), [], [], |fds|, AtPeek, [], {}, 0)
  }

  lemma {:induction false} RequestsFacts(files: seq<File>)
    requires forall i :: 0 <= i < |files| ==> files[i].offset == 0
    ensures RequestsOk(files, Requests(files))
    ensures |Requests(files)| + Skipped(files) == |files| && Offsets(files) == 0
  {
    if files != [] {
      RequestsFacts(files[..|files| - 1]);
    }
  }

  /** One request for each open file. */
  lemma {:induction false} RequestsCount(files: seq<File>, i: nat)
    ensures multiset(SqeIds(Requests(files)))[i] == if i < |files| && files[i].isOpen then 1 else 0
  {
    if files != [] {
      var n := |files| - 1;
      RequestsCount(files[..n], i);
      assert SqeIds(Requests(files)) == SqeIds(Requests(files[..n])) + (if files[n].isOpen then [n] else []);
    }
  }

  lemma StartedPending(fds: seq<int>, bufs: seq<seq<byte>>, i: nat)
    requires |bufs| == |fds|
    ensures var s := Started(fds, bufs);
            Outstanding(s)[i] == if i < |s.files| && s.files[i].isOpen then 1 else 0
  {
    var s := Started(fds, bufs);
    assert Outstanding(s) == multiset(SqeIds(s.published));
    RequestsCount(s.files, i);
  }

  lemma StartedInv(disk: Disk, fds: seq<int>, bufs: seq<seq<byte>>)
    requires CanStart(disk, fds, bufs)
    ensures Inv(disk, Started(fds, bufs))
  {
    var s := Started(fds, bufs);
    RequestsFacts(s.files);
    forall i: nat
      ensures Outstanding(s)[i] == if i < |s.files| && s.files[i].isOpen then 1 else 0
    {
      StartedPending(fds, bufs, i);
    }
  }

  // ---------------------------------------------------------------- runs

  ghost predicate Legal(disk: Disk, s: State, steps: seq<Step>)
    decreases |steps|
  {
    steps == [] || (Enabled(disk, s, steps[0]) && Legal(disk, Apply(disk, s, steps[0]), steps[1..]))
  }

  ghost function Exec(disk: Disk, s: State, steps: seq<Step>): State
    requires Legal(disk, s, steps)
    decreases |steps|
  {
    if steps == [] then s else Exec(disk, Apply(disk, s, steps[0]), steps[1..])
  }

  lemma RunCons(disk: Disk, s: State, step: Step, rest: seq<Step>)
    requires Enabled(disk, s, step) && Legal(disk, Apply(disk, s, step), rest)
    ensures Legal(disk, s, [step] + rest) && Exec(disk, s, [step] + rest) == Exec(disk, Apply(disk, s, step), rest)
  {
    assert ([step] + rest)[1..] == rest;
  }

  lemma {:induction false} RunSnoc(disk: Disk, s: State, steps: seq<Step>, step: Step)
    requires Legal(disk, s, steps) && Enabled(disk, Exec(disk, s, steps), step)
    ensures Legal(disk, s, steps + [step]) && Exec(disk, s, steps + [step]) == Apply(disk, Exec(disk, s, steps), step)
    decreases |steps|
  {
    if steps == [] {
      assert steps + [step] == [step] + [];
      RunCons(disk, s, step, []);
    } else {
      RunSnoc(disk, Apply(disk, s, steps[0]), steps[1..], step);
      assert steps + [step] == [steps[0]] + (steps[1..] + [step]);
      RunCons(disk, s, steps[0], steps[1..] + [step]);
    }
  }

  lemma {:induction false} RunKeeps(disk: Disk, s: State, steps: seq<Step>)
    requires Inv(disk, s) && Legal(disk, s, steps)
    ensures Inv(disk, Exec(disk, s, steps))
    ensures SameFiles(s, Exec(disk, s, steps))
    decreases |steps|
  {
    if steps != [] {
      StepKeeps(disk, s, steps[0]);
      StepSameFiles(disk, s, steps[0]);
      RunKeeps(disk, Apply(disk, s, steps[0]), steps[1..]);
    }
  }

  /** No step opens or closes a file. */
  ghost predicate SameFiles(s: State, s': State) {
    && |s'.files| == |s.files|
    && forall i :: 0 <= i < |s.files| ==> s'.files[i].isOpen == s.files[i].isOpen && s'.files[i].fd == s.files[i].fd
  }

  lemma StepSameFiles(disk: Disk, s: State, step: Step)
    requires Enabled(disk, s, step)
    ensures SameFiles(s, Apply(disk, s, step))
  {
  }

  function Sizes(disk: Disk, files: seq<File>): nat {
    if files == [] then 0 else
      var f := files[|files| - 1];
      Sizes(disk, files[..|files| - 1]) + (if f.isOpen && f.fd in disk then |disk[f.fd]| else 0)
  }

  lemma {:induction false} OffsetsBounded(disk: Disk, files: seq<File>)
    requires forall i :: 0 <= i < |files| ==>
               if files[i].isOpen then files[i].fd in disk && files[i].offset <= |disk[files[i].fd]|
               else files[i].offset == 0
    ensures Offsets(files) <= Sizes(disk, files)
  {
    if files != [] {
      OffsetsBounded(disk, files[..|files| - 1]);
    }
  }

  lemma {:induction false} SizesSame(disk: Disk, files: seq<File>, files': seq<File>)
    requires |files'| == |files|
    requires forall i :: 0 <= i < |files| ==> files'[i].isOpen == files[i].isOpen && files'[i].fd == files[i].fd
    ensures Sizes(disk, files') == Sizes(disk, files)
  {
    if files != [] {
      SizesSame(disk, files[..|files| - 1], files'[..|files| - 1]);
    }
  }

  /** The output of file `i` is all of it. */
  ghost predicate Whole(disk: Disk, s: State, i: nat)
    requires i < |s.files| && s.files[i].fd in disk
  {
    OutputOf(s.stdout, i) == disk[s.files[i].fd]
  }

  /**
   Over every run, whatever the order and the lengths of the completions: each file's output is a prefix of the
   file, and all of it when its zero-length completion is at hand; the counter is the files still pending plus
   those that never opened; and the completions dealt with are at most the bytes of all files plus their number.
   */
  lemma EveryRun(disk: Disk, fds: seq<int>, bufs: seq<seq<byte>>, steps: seq<Step>)
    requires CanStart(disk, fds, bufs) && Legal(disk, Started(fds, bufs), steps)
    ensures var s := Exec(disk, Started(fds, bufs), steps);
            && Inv(disk, s)
            && (forall i: nat :: i < |s.files| && s.files[i].isOpen ==> OutputOf(s.stdout, i) <= disk[s.files[i].fd])
            && (forall k :: 0 <= k < |LiveCq(s)| && LiveCq(s)[k].res == 0 ==>
                  LiveCq(s)[k].userData < |s.files| && s.files[LiveCq(s)[k].userData].fd in disk
                  && Whole(disk, s, LiveCq(s)[k].userData))
            && s.numFiles == |Outstanding(s)| + Skipped(s.files)
            && s.handled + s.numFiles <= |fds| + Sizes(disk, Started(fds, bufs).files)
  {
    var s0 := Started(fds, bufs);
    StartedInv(disk, fds, bufs);
    RunKeeps(disk, s0, steps);
    InvMeans(disk, Exec(disk, s0, steps));
    SizesSame(disk, s0.files, Exec(disk, s0, steps).files);
  }

  lemma InvMeans(disk: Disk, s: State)
    requires Inv(disk, s)
    ensures forall i: nat :: i < |s.files| && s.files[i].isOpen ==> OutputOf(s.stdout, i) <= disk[s.files[i].fd]
    ensures forall k :: 0 <= k < |LiveCq(s)| && LiveCq(s)[k].res == 0 ==>
              LiveCq(s)[k].userData < |s.files| && s.files[LiveCq(s)[k].userData].fd in disk
              && Whole(disk, s, LiveCq(s)[k].userData)
    ensures s.numFiles == |Outstanding(s)| + Skipped(s.files)
    ensures s.handled + s.numFiles <= |s.files| + Sizes(disk, s.files)
  {
    OutstandingAreFiles(disk, s);
    OffsetsBounded(disk, s.files);
    forall k | 0 <= k < |LiveCq(s)| && LiveCq(s)[k].res == 0
      ensures LiveCq(s)[k].userData < |s.files| && s.files[LiveCq(s)[k].userData].fd in disk
      ensures Whole(disk, s, LiveCq(s)[k].userData)
    {
      EndIsWhole(disk, s, k);
    }
  }

  lemma EndIsWhole(disk: Disk, s: State, k: nat)
    requires Inv(disk, s) && k < |LiveCq(s)| && LiveCq(s)[k].res == 0
    ensures CqeOk(disk, s.files, LiveCq(s)[k]) && Whole(disk, s, LiveCq(s)[k].userData)
  {
    var i := LiveCq(s)[k].userData;
    assert CqeOk(disk, s.files, LiveCq(s)[k]);
    var content := disk[s.files[i].fd];
    assert content[..|content|] == content;
    assert Written(s, i) == 0;
  }

  /** When the counter reaches zero every file was opened, and was printed whole or reported as failed. */
  lemma ZeroMeansDone(disk: Disk, s: State)
    requires Inv(disk, s) && s.numFiles == 0
    ensures forall i: nat :: i < |s.files| ==> s.files[i].isOpen && (i in s.failed || Whole(disk, s, i))
  {
    NoneSkipped(s.files);
    assert LiveCq(s) == [];
    OutstandingAreFiles(disk, s);
    forall i: nat | i < |s.files|
      ensures s.files[i].isOpen && (i in s.failed || Whole(disk, s, i))
    {
      assert Outstanding(s)[i] == 0;
      assert Written(s, i) == 0;
      if i !in s.failed {
        var content := disk[s.files[i].fd];
        assert content[..|content|] == content;
      }
    }
  }

  lemma {:induction false} NoneSkipped(files: seq<File>)
    ensures Skipped(files) == 0 <==> forall i :: 0 <= i < |files| ==> files[i].isOpen
  {
    if files != [] {
      var n := |files| - 1;
      NoneSkipped(files[..n]);
      assert forall i :: 0 <= i < n ==> files[..n][i] == files[i];
    }
  }

  /**
   From a completion until the program has dealt with it nothing can touch the buffer: no request for it is prepared,
   submitted or in the kernel's hands. This holds of every completion in the queue, not only of the oldest.
   */
  lemma BufferIsSafe(disk: Disk, s: State, k: nat, sqe: Sqe)
    requires Inv(disk, s) && k < |LiveCq(s)|
    requires sqe in s.prepared + s.published + s.inflight
    ensures sqe.addr != LiveCq(s)[k].userData
  {
    var i := LiveCq(s)[k].userData;
    CqeIdIn(LiveCq(s), k);
    assert Outstanding(s)[i] <= 1;
    if sqe in s.prepared {
      var j :| 0 <= j < |s.prepared| && s.prepared[j] == sqe;
      SqeIdIn(s.prepared, j);
    } else if sqe in s.published {
      var j :| 0 <= j < |s.published| && s.published[j] == sqe;
      SqeIdIn(s.published, j);
    } else {
      var j :| 0 <= j < |s.inflight| && s.inflight[j] == sqe;
      SqeIdIn(s.inflight, j);
    }
  }

  // ---------------------------------------------------------------- ending

  predicate NoSubmit(steps: seq<Step>) {
    forall k :: 0 <= k < |steps| ==> !steps[k].Submit?
  }

  /** A file that has been read from waits, its next request prepared but not submitted. */
  ghost predicate ReadOnceStuck(s: State) {
    && (forall i: nat :: i < |s.files| && s.files[i].offset > 0 ==> multiset(SqeIds(s.prepared))[i] >= 1)
    && (forall k :: 0 <= k < |s.prepared| ==> s.prepared[k].off > 0)
  }

  /** Nothing is asked for any more for a file whose read was reported as failed. */
  ghost predicate FailedAreDone(s: State) {
    forall i :: i in s.failed ==> Outstanding(s)[i] == 0
  }

  lemma OneMorePrepared(prepared: seq<Sqe>, r: Sqe)
    ensures multiset(SqeIds(prepared + [r])) == multiset(SqeIds(prepared)) + multiset{r.userData}
  {
    SqeIdsAppend(prepared, [r]);
    assert SqeIds([r]) == [r.userData];
  }

  lemma UpdateStuck(disk: Disk, s: State)
    requires Enabled(disk, s, Update) && HasSqe(s) && ReadOnceStuck(s)
    ensures ReadOnceStuck(Apply(disk, s, Update))
  {
    var s', i := Apply(disk, s, Update), s.cq[0].userData;
    if s.cq[0].res > 0 {
      OneMorePrepared(s.prepared, ReadRequest(i, s'.files[i]));
      assert s'.prepared == s.prepared + [ReadRequest(i, s'.files[i])];
      assert forall j: nat :: j < |s.files| && j != i ==> s'.files[j] == s.files[j];
    }
  }

  lemma StuckStays(disk: Disk, s: State, step: Step)
    requires Shape(disk, s) && Unique(s) && Enabled(disk, s, step) && !step.Submit? && ReadOnceStuck(s)
    ensures ReadOnceStuck(Apply(disk, s, step))
  {
    if step.Update? {
      SlotForNextRead(disk, s);
      UpdateStuck(disk, s);
    } else {
      var s' := Apply(disk, s, step);
      assert s'.prepared == s.prepared;
      assert forall i: nat :: i < |s.files| ==> s'.files[i].offset == s.files[i].offset;
    }
  }

  lemma NoneAfterLast(before: multiset<nat>, after: multiset<nat>, i: nat, failed: set<nat>)
    requires before == after + multiset{i} && before[i] <= 1
    requires forall x :: x in failed ==> before[x] == 0
    ensures after[i] == 0 && forall x :: x in failed ==> after[x] == 0
  {
  }

  lemma FailedStay(disk: Disk, s: State, step: Step)
    requires Shape(disk, s) && Unique(s) && Enabled(disk, s, step) && FailedAreDone(s)
    ensures FailedAreDone(Apply(disk, s, step))
  {
    var s' := Apply(disk, s, step);
    PendingAfter(disk, s, step);
    FailedAfter(disk, s, step);
    if EndsFile(s, step) {
      NoneAfterLast(Outstanding(s), Outstanding(s'), s.cq[0].userData, s.failed);
    }
  }

  lemma FailedAfter(disk: Disk, s: State, step: Step)
    requires Enabled(disk, s, step)
    ensures if EndsFile(s, step) then Apply(disk, s, step).failed <= s.failed + {s.cq[0].userData}
            else Apply(disk, s, step).failed == s.failed
  {
  }

  /** What runs without submissions keep besides the invariant, for files opened as `fds` says. */
  ghost predicate AsWritten(disk: Disk, fds: seq<int>, s: State) {
    Inv(disk, s) && ReadOnceStuck(s) && FailedAreDone(s) && OpenedAs(fds, s.files)
  }

  lemma StepAsWritten(disk: Disk, fds: seq<int>, s: State, step: Step)
    requires AsWritten(disk, fds, s) && Enabled(disk, s, step) && !step.Submit?
    ensures AsWritten(disk, fds, Apply(disk, s, step))
  {
    StuckStays(disk, s, step);
    FailedStay(disk, s, step);
    StepKeeps(disk, s, step);
    StepSameFiles(disk, s, step);
  }

  /** How far a run still has to go. */
  ghost function Distance(disk: Disk, s: State): int {
    20 * (Sizes(disk, s.files) - Offsets(s.files))
    + 8 * |s.prepared| + 7 * |s.published| + 6 * |s.inflight| + 5 * |LiveCq(s)|
    + match s.pc case AtSeen => 4 case AtPeek => 3 case AtWrite => 2 case AtUpdate => 1
  }

  lemma DistanceIsNat(disk: Disk, s: State)
    requires FilesOk(disk, s.files)
    ensures Distance(disk, s) >= 0
  {
    OffsetsBounded(disk, s.files);
  }

  // ---------------------------------------------------------------- every step brings the end nearer

  /** Submitting when nothing is prepared changes nothing. */
  predicate Idle(s: State, step: Step) {
    step.Submit? && s.prepared == []
  }

  /** Any step of either thread, with whatever result, brings the end nearer, unless it changes nothing. */
  lemma StepIsNearer(disk: Disk, s: State, step: Step)
    requires Inv(disk, s) && Enabled(disk, s, step) && !Idle(s, step)
    ensures Distance(disk, Apply(disk, s, step)) < Distance(disk, s)
  {
    var s' := Apply(disk, s, step);
    StepSameFiles(disk, s, step);
    SizesSame(disk, s.files, s'.files);
    if step.Complete? {
      CompleteIsNearer(disk, s, step.j, step.res);
    } else if step.Update? {
      UpdateIsNearer(disk, s);
    } else {
      assert s'.files == s.files && LiveCq(s') == LiveCq(s);
    }
  }

  lemma CompleteIsNearer(disk: Disk, s: State, j: nat, res: int)
    requires Shape(disk, s) && Enabled(disk, s, Complete(j, res))
    requires Sizes(disk, Apply(disk, s, Complete(j, res)).files) == Sizes(disk, s.files)
    ensures Distance(disk, Apply(disk, s, Complete(j, res))) < Distance(disk, s)
  {
    var s' := Apply(disk, s, Complete(j, res));
    PendingComplete(disk, s, j, res);
    if res > 0 {
      OffsetsUpdate(s.files, s.inflight[j].addr, s'.files[s.inflight[j].addr]);
    }
  }

  lemma UpdateIsNearer(disk: Disk, s: State)
    requires Shape(disk, s) && Unique(s) && Enabled(disk, s, Update)
    requires Sizes(disk, Apply(disk, s, Update).files) == Sizes(disk, s.files)
    ensures Distance(disk, Apply(disk, s, Update)) < Distance(disk, s)
  {
    SlotForNextRead(disk, s);
    if s.cq[0].res > 0 {
      MoreIsNearer(disk, s);
    } else {
      LastIsNearer(disk, s);
    }
  }

  lemma MoreIsNearer(disk: Disk, s: State)
    requires Enabled(disk, s, Update) && HasSqe(s) && s.cq[0].res > 0
    requires Sizes(disk, Apply(disk, s, Update).files) == Sizes(disk, s.files)
    ensures Distance(disk, Apply(disk, s, Update)) < Distance(disk, s)
  {
    var i := s.cq[0].userData;
    PendingMore(disk, s);
    OffsetsUpdate(s.files, i, s.files[i].(offset := s.files[i].offset + s.cq[0].res));
  }

  lemma LastIsNearer(disk: Disk, s: State)
    requires Enabled(disk, s, Update) && s.cq[0].res <= 0
    ensures Distance(disk, Apply(disk, s, Update)) < Distance(disk, s)
  {
    PendingLast(disk, s);
  }

  /** A run without idle steps. */
  ghost predicate Busy(disk: Disk, s: State, steps: seq<Step>)
    requires Legal(disk, s, steps)
    decreases |steps|
  {
    steps == [] || (!Idle(s, steps[0]) && Busy(disk, Apply(disk, s, steps[0]), steps[1..]))
  }

  /** Every run ends: without idle steps it has no more steps than the distance it covers. */
  lemma {:induction false} EveryRunIsShort(disk: Disk, s: State, steps: seq<Step>)
    requires Inv(disk, s) && Legal(disk, s, steps) && Busy(disk, s, steps)
    ensures 0 <= |steps| <= Distance(disk, s) - Distance(disk, Exec(disk, s, steps))
    ensures Distance(disk, Exec(disk, s, steps)) >= 0
    decreases |steps|
  {
    if steps == [] {
      DistanceIsNat(disk, s);
    } else {
      StepIsNearer(disk, s, steps[0]);
      StepKeeps(disk, s, steps[0]);
      EveryRunIsShort(disk, Apply(disk, s, steps[0]), steps[1..]);
    }
  }

  /** The runs of the program as written are among those: they have no submissions at all. */
  lemma {:induction false} NoSubmitIsBusy(disk: Disk, s: State, steps: seq<Step>)
    requires Legal(disk, s, steps) && NoSubmit(steps)
    ensures Busy(disk, s, steps)
    decreases |steps|
  {
    if steps != [] {
      assert NoSubmit(steps[1..]);
      NoSubmitIsBusy(disk, Apply(disk, s, steps[0]), steps[1..]);
    }
  }

  // ---------------------------------------------------------------- where a run can stop

  /** Neither thread can do anything but submit nothing: if my_fread has not returned, it polls for ever. */
  ghost predicate Stopped(disk: Disk, s: State) {
    forall step :: Enabled(disk, s, step) ==> Idle(s, step)
  }

  /** The same for the program as written, which makes no submissions in my_fread. */
  ghost predicate Halted(disk: Disk, s: State) {
    forall step :: Enabled(disk, s, step) ==> step.Submit?
  }

  /** A read brings all that fits the buffer, or all that is left of the file. */
  ghost predicate FullStep(disk: Disk, s: State, step: Step) {
    step.Complete? && step.j < |s.inflight| && s.inflight[step.j].fd in disk ==>
      step.res == Min(BUFFER_SIZE, |disk[s.inflight[step.j].fd]| - s.inflight[step.j].off)
  }

  /** A run all of whose reads do; none of them fails. */
  ghost predicate FullRun(disk: Disk, s: State, steps: seq<Step>)
    requires Legal(disk, s, steps)
    decreases |steps|
  {
    steps == [] || (FullStep(disk, s, steps[0]) && FullRun(disk, Apply(disk, s, steps[0]), steps[1..]))
  }

  lemma InflightCanComplete(disk: Disk, s: State) returns (step: Step)
    requires Inv(disk, s) && s.inflight != []
    ensures step.Complete? && Enabled(disk, s, step) && FullStep(disk, s, step)
  {
    var i := s.inflight[0].userData;
    var f := s.files[i];
    assert s.inflight[0] == ReadRequest(i, f);
    var n := Min(BUFFER_SIZE, |disk[f.fd]| - f.offset);
    RequestFitsBuffer(disk, i, f, n);
    step := Complete(0, n);
  }

  /** Nothing is submitted, in flight or completed. */
  predicate AllQuiet(s: State) {
    !s.pc.AtSeen? && s.published == [] && s.inflight == [] && s.cq == []
  }

  /** Otherwise a step is possible that is neither a submission nor a read that fails or falls short. */
  lemma SomeStep(disk: Disk, s: State) returns (step: Step)
    requires Inv(disk, s) && !AllQuiet(s)
    ensures Enabled(disk, s, step) && !step.Submit? && FullStep(disk, s, step)
  {
    if s.pc.AtSeen? {
      step := Seen;
    } else if s.inflight != [] {
      step := InflightCanComplete(disk, s);
    } else if s.published != [] {
      step := Consume;
    } else {
      assert CqeOk(disk, s.files, LiveCq(s)[0]);
      step := if s.pc.AtPeek? then Peek else if s.pc.AtWrite? then Write else Update;
    }
  }

  /** Where a run as written has stopped, all that is left to do is prepared and not submitted. */
  lemma HaltedIff(disk: Disk, s: State)
    requires Inv(disk, s)
    ensures Halted(disk, s) <==> AllQuiet(s)
    ensures Halted(disk, s) ==> s.numFiles == |s.prepared| + Skipped(s.files)
  {
    if !AllQuiet(s) {
      var step := SomeStep(disk, s);
    }
  }

  /** Where a run has stopped and every file opened, my_fread has returned. */
  lemma StoppedMeansReturned(disk: Disk, s: State)
    requires Inv(disk, s) && Stopped(disk, s) && Skipped(s.files) == 0
    ensures s.numFiles == 0
  {
    assert Halted(disk, s);
    HaltedIff(disk, s);
    assert Enabled(disk, s, Submit);
  }

  lemma Continue(disk: Disk, s: State, step: Step)
    requires Inv(disk, s) && Enabled(disk, s, step) && !Idle(s, step)
    ensures Inv(disk, Apply(disk, s, step))
    ensures 0 <= Distance(disk, Apply(disk, s, step)) < Distance(disk, s)
  {
    StepIsNearer(disk, s, step);
    StepKeeps(disk, s, step);
    DistanceIsNat(disk, Apply(disk, s, step));
  }

  /** Every run can be continued until it stops. */
  lemma {:induction false} RunOn(disk: Disk, s: State) returns (steps: seq<Step>)
    requires Inv(disk, s)
    ensures Legal(disk, s, steps) && Busy(disk, s, steps) && Stopped(disk, Exec(disk, s, steps))
    decreases Distance(disk, s)
  {
    steps := [];
    if !Stopped(disk, s) {
      var step :| Enabled(disk, s, step) && !Idle(s, step);
      Continue(disk, s, step);
      var rest := RunOn(disk, Apply(disk, s, step));
      RunCons(disk, s, step, rest);
      steps := [step] + rest;
      assert steps[1..] == rest;
    }
  }

  lemma FullCons(disk: Disk, s: State, step: Step, rest: seq<Step>)
    requires Enabled(disk, s, step) && FullStep(disk, s, step) && !step.Submit?
    requires Legal(disk, Apply(disk, s, step), rest) && FullRun(disk, Apply(disk, s, step), rest) && NoSubmit(rest)
    ensures Legal(disk, s, [step] + rest) && FullRun(disk, s, [step] + rest) && NoSubmit([step] + rest)
    ensures Exec(disk, s, [step] + rest) == Exec(disk, Apply(disk, s, step), rest)
  {
    RunCons(disk, s, step, rest);
    assert ([step] + rest)[1..] == rest;
  }

  /** So can every run as written, with full reads. */
  lemma {:induction false} RunOnAsWritten(disk: Disk, s: State) returns (steps: seq<Step>)
    requires Inv(disk, s)
    ensures Legal(disk, s, steps) && NoSubmit(steps) && FullRun(disk, s, steps)
    ensures Halted(disk, Exec(disk, s, steps))
    decreases Distance(disk, s)
  {
    if AllQuiet(s) {
      HaltedIff(disk, s);
      steps := [];
    } else {
      var step := SomeStep(disk, s);
      Continue(disk, s, step);
      var rest := RunOnAsWritten(disk, Apply(disk, s, step));
      FullCons(disk, s, step, rest);
      steps := [step] + rest;
    }
  }

  // ---------------------------------------------------------------- when my_fread returns

  /** Every run, continued as far as it goes, ends with my_fread returning. */
  ghost predicate AlwaysReturns(disk: Disk, s: State) {
    forall steps: seq<Step> :: Legal(disk, s, steps) && Stopped(disk, Exec(disk, s, steps)) ==>
      Exec(disk, s, steps).numFiles == 0
  }

  /** The same of the program as written. */
  ghost predicate AlwaysReturnsAsWritten(disk: Disk, s: State) {
    forall steps: seq<Step> :: Legal(disk, s, steps) && NoSubmit(steps) && Halted(disk, Exec(disk, s, steps)) ==>
      Exec(disk, s, steps).numFiles == 0
  }

  /** From any reachable state, if every file opened, the run can be continued until my_fread returns. */
  lemma Finish(disk: Disk, s: State) returns (steps: seq<Step>)
    requires Inv(disk, s) && Skipped(s.files) == 0
    ensures Legal(disk, s, steps) && Exec(disk, s, steps).numFiles == 0
  {
    steps := RunOn(disk, s);
    RunKeeps(disk, s, steps);
    NoneSkipped(s.files);
    NoneSkipped(Exec(disk, s, steps).files);
    StoppedMeansReturned(disk, Exec(disk, s, steps));
  }

  /**
   Given that prepared reads are submitted, my_fread returns, on every run and whatever the kernel does, if and only if
   every file was opened.
   */
  lemma AlwaysReturnsIff(disk: Disk, s: State)
    requires Inv(disk, s)
    ensures AlwaysReturns(disk, s) <==> Skipped(s.files) == 0
  {
    if Skipped(s.files) == 0 {
      forall steps: seq<Step> | Legal(disk, s, steps) && Stopped(disk, Exec(disk, s, steps))
        ensures Exec(disk, s, steps).numFiles == 0
      {
        RunKeeps(disk, s, steps);
        NoneSkipped(s.files);
        NoneSkipped(Exec(disk, s, steps).files);
        StoppedMeansReturned(disk, Exec(disk, s, steps));
      }
    } else {
      var steps := RunOn(disk, s);
      if Exec(disk, s, steps).numFiles == 0 {
        RunKeeps(disk, s, steps);
        ZeroMeansDone(disk, Exec(disk, s, steps));
        NoneSkipped(s.files);
      }
    }
  }

  // ---------------------------------------------------------------- when it returns as written

  /** The completion brought all that fits the buffer, or all that was left of the file. */
  ghost predicate BringsAll(disk: Disk, files: seq<File>, c: Cqe) {
    && c.userData < |files| && files[c.userData].fd in disk
    && c.res == Min(BUFFER_SIZE, |disk[files[c.userData].fd]| - files[c.userData].offset)
  }

  /** In a run as written with full reads a file is read once, as far as the buffer reaches. */
  ghost predicate FirstChunks(disk: Disk, s: State) {
    && s.failed == {}
    && (forall i :: 0 <= i < |s.files| && s.files[i].offset > 0 ==>
          s.files[i].fd in disk && s.files[i].offset == Min(BUFFER_SIZE, |disk[s.files[i].fd]|))
    && (forall k :: 0 <= k < |LiveCq(s)| ==> BringsAll(disk, s.files, LiveCq(s)[k]))
  }

  lemma CompleteChunks(disk: Disk, s: State, j: nat, res: int)
    requires Shape(disk, s) && FirstChunks(disk, s) && Enabled(disk, s, Complete(j, res))
    requires FullStep(disk, s, Complete(j, res))
    ensures FirstChunks(disk, Apply(disk, s, Complete(j, res)))
  {
    var s' := Apply(disk, s, Complete(j, res));
    var i := s.inflight[j].userData;
    assert s.inflight[j] == ReadRequest(i, s.files[i]);
    PendingComplete(disk, s, j, res);
    SameOffsets(disk, s.files, s'.files, LiveCq(s));
    assert BringsAll(disk, s'.files, Cqe(i, res));
  }

  /** What buffers hold does not matter to it. */
  lemma SameOffsets(disk: Disk, files: seq<File>, files': seq<File>, cq: seq<Cqe>)
    requires |files'| == |files|
    requires forall i :: 0 <= i < |files| ==> files'[i].fd == files[i].fd && files'[i].offset == files[i].offset
    requires forall k :: 0 <= k < |cq| ==> BringsAll(disk, files, cq[k])
    ensures forall k :: 0 <= k < |cq| ==> BringsAll(disk, files', cq[k])
  {
  }

  /** The file whose completion is dealt with has not been read from before, or its next request would be prepared. */
  lemma OldestIsFirst(s: State)
    requires LiveCq(s) != [] && Unique(s) && ReadOnceStuck(s) && LiveCq(s)[0].userData < |s.files|
    ensures s.files[LiveCq(s)[0].userData].offset == 0
  {
    CqeIdIn(LiveCq(s), 0);
    assert Outstanding(s)[LiveCq(s)[0].userData] <= 1;
  }

  lemma UpdateChunks(disk: Disk, s: State)
    requires Shape(disk, s) && Unique(s) && ReadOnceStuck(s) && FirstChunks(disk, s) && Enabled(disk, s, Update)
    ensures FirstChunks(disk, Apply(disk, s, Update))
  {
    var s' := Apply(disk, s, Update);
    assert LiveCq(s) == [s.cq[0]] + LiveCq(s');
    assert BringsAll(disk, s.files, LiveCq(s)[0]);
    assert CqeOk(disk, s.files, LiveCq(s)[0]);
    OldestIsFirst(s);
    OldestIsAlone(s);
    forall k | 0 <= k < |LiveCq(s')|
      ensures BringsAll(disk, s'.files, LiveCq(s')[k])
    {
      assert LiveCq(s')[k] == LiveCq(s)[k + 1];
      assert BringsAll(disk, s.files, LiveCq(s)[k + 1]);
    }
  }

  lemma StepChunks(disk: Disk, s: State, step: Step)
    requires Shape(disk, s) && Unique(s) && ReadOnceStuck(s) && FirstChunks(disk, s)
    requires Enabled(disk, s, step) && FullStep(disk, s, step)
    ensures FirstChunks(disk, Apply(disk, s, step))
  {
    if step.Complete? {
      CompleteChunks(disk, s, step.j, step.res);
    } else if step.Update? {
      UpdateChunks(disk, s);
    } else {
      assert LiveCq(Apply(disk, s, step)) == LiveCq(s);
    }
  }

  lemma {:induction false} RunChunks(disk: Disk, fds: seq<int>, s: State, steps: seq<Step>)
    requires AsWritten(disk, fds, s) && FirstChunks(disk, s)
    requires Legal(disk, s, steps) && NoSubmit(steps) && FullRun(disk, s, steps)
    ensures FirstChunks(disk, Exec(disk, s, steps))
    decreases |steps|
  {
    if steps != [] {
      StepChunks(disk, s, steps[0]);
      StepAsWritten(disk, fds, s, steps[0]);
      assert NoSubmit(steps[1..]);
      RunChunks(disk, fds, Apply(disk, s, steps[0]), steps[1..]);
    }
  }

  lemma HaltedOutput(disk: Disk, fds: seq<int>, s: State, i: nat)
    requires AsWritten(disk, fds, s) && FirstChunks(disk, s) && AllQuiet(s) && i < |s.files| && s.files[i].isOpen
    ensures OutputOf(s.stdout, i) == disk[s.files[i].fd][..Min(BUFFER_SIZE, |disk[s.files[i].fd]|)]
  {
    assert Written(s, i) == 0;
    if s.files[i].offset == 0 {
      assert i !in SqeIds(s.prepared);
    }
  }

  /** What full reads give of a file, as written: the first block of it. */
  ghost predicate FirstBlocksWritten(disk: Disk, fds: seq<int>, stdout: seq<Chunk>)
    requires forall i :: 0 <= i < |fds| && fds[i] >= 0 ==> fds[i] in disk
  {
    forall i: nat :: i < |fds| && fds[i] >= 0 ==>
      OutputOf(stdout, i) == disk[fds[i]][..Min(4096, |disk[fds[i]]|)]
  }

  lemma HaltedFirstBlocks(disk: Disk, fds: seq<int>, s: State)
    requires forall i :: 0 <= i < |fds| && fds[i] >= 0 ==> fds[i] in disk
    requires AsWritten(disk, fds, s) && FirstChunks(disk, s) && Halted(disk, s)
    ensures FirstBlocksWritten(disk, fds, s.stdout)
  {
    HaltedIff(disk, s);
    forall i: nat | i < |fds| && fds[i] >= 0
      ensures OutputOf(s.stdout, i) == disk[fds[i]][..Min(BUFFER_SIZE, |disk[fds[i]]|)]
    {
      HaltedOutput(disk, fds, s, i);
    }
  }

  /**
   The program as written, when every read brings what fits the buffer: once it has gone as far as it can, what it has
   written of each file that opened is exactly the first 4096 bytes, or all if there are fewer.
   */
  lemma FullReadsWriteFirstBlocks(disk: Disk, fds: seq<int>, bufs: seq<seq<byte>>, steps: seq<Step>)
    requires CanStart(disk, fds, bufs) && Legal(disk, Started(fds, bufs), steps) && NoSubmit(steps)
    requires FullRun(disk, Started(fds, bufs), steps) && Halted(disk, Exec(disk, Started(fds, bufs), steps))
    ensures FirstBlocksWritten(disk, fds, Exec(disk, Started(fds, bufs), steps).stdout)
  {
    var s := Started(fds, bufs);
    StartedAsWritten(disk, fds, bufs);
    RunAsWritten(disk, fds, s, steps);
    RunChunks(disk, fds, s, steps);
    HaltedFirstBlocks(disk, fds, Exec(disk, s, steps));
  }

  /** There is such a run, whatever the files are. */
  lemma FirstBlocksCanBeWritten(disk: Disk, fds: seq<int>, bufs: seq<seq<byte>>) returns (steps: seq<Step>)
    requires CanStart(disk, fds, bufs)
    ensures Legal(disk, Started(fds, bufs), steps) && NoSubmit(steps) && FullRun(disk, Started(fds, bufs), steps)
    ensures Halted(disk, Exec(disk, Started(fds, bufs), steps))
    ensures FirstBlocksWritten(disk, fds, Exec(disk, Started(fds, bufs), steps).stdout)
  {
    StartedInv(disk, fds, bufs);
    steps := RunOnAsWritten(disk, Started(fds, bufs));
    FullReadsWriteFirstBlocks(disk, fds, bufs, steps);
  }

  /** Where the counter is zero no file was read from, so every file is empty unless its read failed. */
  lemma ZeroMeansEmpty(disk: Disk, s: State)
    requires Inv(disk, s) && ReadOnceStuck(s) && s.numFiles == 0
    ensures forall i: nat :: i < |s.files| ==> s.files[i].isOpen && (i in s.failed || disk[s.files[i].fd] == [])
  {
    ZeroMeansDone(disk, s);
    assert SqeIds(s.prepared) == [];
    forall i: nat | i < |s.files| && i !in s.failed
      ensures disk[s.files[i].fd] == []
    {
      assert Written(s, i) == 0;
      assert OutputOf(s.stdout, i) == disk[s.files[i].fd][..0];
    }
  }

  /** A request left prepared is for a file that has more than nothing and has not failed. */
  lemma PreparedMeansRead(disk: Disk, s: State)
    requires Inv(disk, s) && ReadOnceStuck(s) && FailedAreDone(s) && s.prepared != []
    ensures var i := s.prepared[0].userData;
            i < |s.files| && s.files[i].isOpen && i !in s.failed && disk[s.files[i].fd] != []
  {
    SqeIdIn(s.prepared, 0);
  }

  lemma StartedAsWritten(disk: Disk, fds: seq<int>, bufs: seq<seq<byte>>)
    requires CanStart(disk, fds, bufs)
    ensures AsWritten(disk, fds, Started(fds, bufs))
  {
    StartedInv(disk, fds, bufs);
  }

  lemma {:induction false} RunAsWritten(disk: Disk, fds: seq<int>, s: State, steps: seq<Step>)
    requires AsWritten(disk, fds, s) && Legal(disk, s, steps) && NoSubmit(steps)
    ensures AsWritten(disk, fds, Exec(disk, s, steps))
    decreases |steps|
  {
    if steps != [] {
      StepAsWritten(disk, fds, s, steps[0]);
      assert NoSubmit(steps[1..]);
      RunAsWritten(disk, fds, Apply(disk, s, steps[0]), steps[1..]);
    }
  }

  /** Every file opened, and each is empty or was reported as failed. */
  ghost predicate EmptyOrFailed(disk: Disk, fds: seq<int>, failed: set<nat>)
    requires forall i :: 0 <= i < |fds| && fds[i] >= 0 ==> fds[i] in disk
  {
    forall i: nat :: i < |fds| ==> fds[i] >= 0 && (i in failed || disk[fds[i]] == [])
  }

  lemma AllOpen(fds: seq<int>, files: seq<File>)
    requires OpenedAs(fds, files) && forall i :: 0 <= i < |fds| ==> fds[i] >= 0
    ensures Skipped(files) == 0
  {
    NoneSkipped(files);
  }

  lemma NonePrepared(disk: Disk, fds: seq<int>, s: State)
    requires AsWritten(disk, fds, s)
    requires forall i :: 0 <= i < |fds| && fds[i] >= 0 ==> fds[i] in disk
    requires EmptyOrFailed(disk, fds, s.failed)
    ensures s.prepared == []
  {
    if s.prepared != [] {
      PreparedMeansRead(disk, s);
    }
  }

  lemma HaltedReturnsIff(disk: Disk, fds: seq<int>, s: State)
    requires AsWritten(disk, fds, s) && Halted(disk, s)
    requires forall i :: 0 <= i < |fds| && fds[i] >= 0 ==> fds[i] in disk
    ensures s.numFiles == 0 <==> EmptyOrFailed(disk, fds, s.failed)
  {
    if s.numFiles == 0 {
      ZeroMeansEmpty(disk, s);
    }
    if EmptyOrFailed(disk, fds, s.failed) {
      NonePrepared(disk, fds, s);
      AllOpen(fds, s.files);
      HaltedIff(disk, s);
    }
  }

  /**
   The program as written never submits what setup_read prepares in my_fread. A run of it that has gone as far as it
   can has returned if and only if every file opened and each was empty or reported as failed.
   */
  lemma ReturnsAsWrittenIff(disk: Disk, fds: seq<int>, bufs: seq<seq<byte>>, steps: seq<Step>)
    requires CanStart(disk, fds, bufs) && Legal(disk, Started(fds, bufs), steps) && NoSubmit(steps)
    requires Halted(disk, Exec(disk, Started(fds, bufs), steps))
    ensures var e := Exec(disk, Started(fds, bufs), steps);
            e.numFiles == 0 <==> EmptyOrFailed(disk, fds, e.failed)
  {
    StartedAsWritten(disk, fds, bufs);
    RunAsWritten(disk, fds, Started(fds, bufs), steps);
    HaltedReturnsIff(disk, fds, Exec(disk, Started(fds, bufs), steps));
  }

  /** Wherever such a run has returned, no file was read from. */
  lemma ReturnedMeansEmpty(disk: Disk, fds: seq<int>, bufs: seq<seq<byte>>, steps: seq<Step>)
    requires CanStart(disk, fds, bufs) && Legal(disk, Started(fds, bufs), steps) && NoSubmit(steps)
    requires Exec(disk, Started(fds, bufs), steps).numFiles == 0
    ensures EmptyOrFailed(disk, fds, Exec(disk, Started(fds, bufs), steps).failed)
  {
    StartedAsWritten(disk, fds, bufs);
    RunAsWritten(disk, fds, Started(fds, bufs), steps);
    ZeroMeansEmpty(disk, Exec(disk, Started(fds, bufs), steps));
  }

  /** Hence it returns on every run, whatever the kernel does, if and only if every file opens and is empty. */
  lemma AlwaysReturnsAsWrittenIff(disk: Disk, fds: seq<int>, bufs: seq<seq<byte>>)
    requires CanStart(disk, fds, bufs)
    ensures AlwaysReturnsAsWritten(disk, Started(fds, bufs))
       <==> forall i :: 0 <= i < |fds| ==> fds[i] >= 0 && disk[fds[i]] == []
  {
    var s := Started(fds, bufs);
    StartedInv(disk, fds, bufs);
    if forall i :: 0 <= i < |fds| ==> fds[i] >= 0 && disk[fds[i]] == [] {
      forall steps: seq<Step> | Legal(disk, s, steps) && NoSubmit(steps) && Halted(disk, Exec(disk, s, steps))
        ensures Exec(disk, s, steps).numFiles == 0
      {
        ReturnsAsWrittenIff(disk, fds, bufs, steps);
      }
    } else {
      var steps := RunOnAsWritten(disk, s);
      StartedAsWritten(disk, fds, bufs);
      RunChunks(disk, fds, s, steps);
      ReturnsAsWrittenIff(disk, fds, bufs, steps);
    }
  }
}
