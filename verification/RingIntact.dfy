/**
 What every run of the rings keeps, even one whose submissions overwrite requests in a full ring: the completion ring
 stays in order, and whatever the kernel or the program looks at names a well-formed file_info.
 */
module RingIntact {
  import opened Words
  import opened Bytes
  import opened Blocks
  import opened Ring
  import opened RingRuns
  import F = Fifo

  /** Requests submitted and not yet reaped. */
  ghost function Waiting(s: Rings): nat {
    SqCount(s) + |s.inflight| + Lag(ReapHead(s), s.cqTail)
  }

  /** What the kernel's steps leave alone: the program's side of the rings and what its requests ask for. */
  ghost predicate KernelOnly(s: Rings, s': Rings) {
    && s'.pc == s.pc && s'.sqTail == s.sqTail && s'.cqHead == s.cqHead
    && s'.log.submitted == s.log.submitted && s'.log.reaped == s.log.reaped
    && s.log.posted <= s'.log.posted
    && Waiting(s') == Waiting(s) && SqCount(s') <= SqCount(s)
    && SameRequests(s.heap, s'.heap)
  }

  /** From `s` to `e` the program has only reaped, and its head has moved on by what it has reaped. */
  ghost predicate OnlyReaped(s: Rings, e: Rings) {
    && e.log.submitted == s.log.submitted && s.log.posted <= e.log.posted && s.log.reaped <= e.log.reaped
    && ReapHead(e) == Advance(ReapHead(s), |e.log.reaped| - |s.log.reaped|)
  }

  lemma OnlyReapedTwice(s: Rings, m: Rings, e: Rings)
    requires OnlyReaped(s, m) && OnlyReaped(m, e)
    ensures OnlyReaped(s, e)
  {
    AdvanceTwice(ReapHead(s), |m.log.reaped| - |s.log.reaped|, |e.log.reaped| - |m.log.reaped|);
  }

  lemma KernelReapsNothing(s: Rings, e: Rings)
    requires KernelOnly(s, e)
    ensures OnlyReaped(s, e)
  {
  }

  ghost predicate SameRequests(heap: F.Heap, heap': F.Heap) {
    forall fi :: fi in heap ==>
      fi in heap' && heap'[fi].fd == heap[fi].fd && heap'[fi].fileSz == heap[fi].fileSz
  }

  // ---------------------------------------------------------------- the invariant

  /** Each of the `n` slots from `head` on points at its own SQE, and that names a file_info. */
  ghost predicate Named(indices: seq<nat>, sqes: seq<F.Sqe>, heap: F.Heap, head: u32, n: nat)
    requires |indices| == |sqes| > 0
  {
    forall i: nat :: i < n ==>
      var slot := SlotAt(head, i, |sqes|);
      indices[slot] == slot && sqes[slot].userData in heap
  }

  /** Every slot that the kernel may look at names a file_info. */
  ghost predicate SlotsNamed(s: Rings)
    requires RingSizes(s)
  {
    Named(s.indices, s.sqes, s.heap, s.sqHead, SqCount(s))
  }

  ghost predicate CqesNamed(heap: F.Heap, cq: seq<F.Cqe>) {
    forall i :: 0 <= i < |cq| ==> cq[i].userData in heap
  }

  ghost predicate InflightNamed(heap: F.Heap, inflight: seq<F.Sqe>) {
    forall i :: 0 <= i < |inflight| ==> inflight[i].userData in heap
  }

  /** The completion ring's counters, and its contents as the history has them. */
  ghost predicate CqIntact(s: Rings)
    requires RingSizes(s)
  {
    && Lag(ReapHead(s), s.cqTail) <= Lag(s.cqHead, s.cqTail) <= |s.cqes|
    && s.log.posted == F.ReapedCqes(s.log.reaped) + CqQueue(s)
  }

  /** What every run keeps, even one that overwrites requests in a full submission ring. */
  ghost predicate Intact(disk: F.Disk, s: Rings) {
    && RingSizes(s)
    && F.HeapOk(disk, s.heap)
    && CqIntact(s)
    && SlotsNamed(s) && InflightNamed(s.heap, s.inflight) && CqesNamed(s.heap, CqQueue(s))
    && PcIntact(s)
  }

  /** No request that the kernel would consume is for `fi`. */
  ghost predicate NotQueued(s: Rings, fi: nat)
    requires RingSizes(s)
  {
    forall i: nat :: i < SqCount(s) ==> s.sqes[SlotAt(s.sqHead, i, |s.sqes|)].userData != fi
  }

  /** While a slot is being filled it is the tail's, and once named and indexed it stays so. */
  ghost predicate PcIntact(s: Rings)
    requires RingSizes(s)
  {
    match s.pc
    case Filling(fi, tail, fields) =>
      && tail == s.sqTail && fi in s.heap
      && (if fields > 6 then s.sqes[Slot(tail, |s.sqes|)].userData == fi else NotQueued(s, fi))
    case Publishing(fi, tail) =>
      && tail == s.sqTail && fi in s.heap
      && s.sqes[Slot(tail, |s.sqes|)].userData == fi
      && s.indices[Slot(tail, |s.indices|)] == Slot(tail, |s.indices|)
    case _ => true
  }

  lemma IntactProgram(disk: F.Disk, s: Rings, step: Step)
    requires Intact(disk, s) && Enabled(disk, s, step)
    requires step.BeginSubmit? || step.WriteField? || step.WriteIndex?
    ensures Intact(disk, Apply(disk, s, step))
  {
    var s' := Apply(disk, s, step);
    assert CqQueue(s') == CqQueue(s);
    if step.BeginSubmit? {
      F.AllocateHeapOk(disk, s.heap, step.fi, step.fd, step.bufs);
    }
  }

  lemma IntactPublish(disk: F.Disk, s: Rings, step: Step)
    requires Intact(disk, s) && Enabled(disk, s, step) && step.PublishTail?
    ensures Intact(disk, Apply(disk, s, step))
  {
    var s' := Apply(disk, s, step);
    assert CqQueue(s') == CqQueue(s);
    LagFacts(s.sqHead, s.sqTail);
    forall i: nat | i < SqCount(s')
      ensures s.indices[SlotAt(s.sqHead, i, |s.sqes|)] == SlotAt(s.sqHead, i, |s.sqes|)
      ensures s.sqes[SlotAt(s.sqHead, i, |s.sqes|)].userData in s.heap
    {
      if i == SqCount(s) {
        assert SlotAt(s.sqHead, i, |s.sqes|) == Slot(s.sqTail, |s.sqes|);
      }
    }
  }

  lemma IntactReap(disk: F.Disk, s: Rings, step: Step)
    requires Intact(disk, s) && Enabled(disk, s, step)
    requires step.BeginReap? || step.EndReap? || step.PublishHead?
    ensures Intact(disk, Apply(disk, s, step))
  {
    var s' := Apply(disk, s, step);
    LagFacts(s'.cqHead, s'.cqTail);
    assert CqQueue(s') == CqQueue(s);
  }

  /** What has been reaped and what waits stay the same history when the oldest is reaped. */
  lemma ReapedThenWaiting(reaped: seq<F.Reaped>, cq: seq<F.Cqe>, printed: seq<byte>)
    requires cq != []
    ensures F.ReapedCqes(reaped + [F.Reaped(cq[0], printed)]) + cq[1..] == F.ReapedCqes(reaped) + cq
  {
  }

  lemma WindowReaped(cqes: seq<F.Cqe>, head: u32, tail: u32, reaped: seq<F.Reaped>, printed: seq<byte>)
    requires |cqes| > 0 && head != tail
    ensures var next, r := Wrap32(head + 1), F.Reaped(cqes[Slot(head, |cqes|)], printed);
            && Lag(head, tail) > 0 && Lag(next, tail) == Lag(head, tail) - 1
            && Window(cqes, next, Lag(next, tail)) == Window(cqes, head, Lag(head, tail))[1..]
            && F.ReapedCqes(reaped + [r]) + Window(cqes, next, Lag(next, tail))
               == F.ReapedCqes(reaped) + Window(cqes, head, Lag(head, tail))
  {
    WindowRest(cqes, head, tail);
    ReapedThenWaiting(reaped, Window(cqes, head, Lag(head, tail)), printed);
  }

  lemma ReapKeepsCq(disk: F.Disk, s: Rings)
    requires RingSizes(s) && CqIntact(s) && Enabled(disk, s, ReapOne)
    ensures CqIntact(Apply(disk, s, ReapOne)) && CqQueue(s) != []
    ensures CqQueue(Apply(disk, s, ReapOne)) == CqQueue(s)[1..]
  {
    var cqe := s.cqes[Slot(s.pc.head, |s.cqes|)];
    WindowReaped(s.cqes, s.pc.head, s.cqTail, s.log.reaped, F.PrintOf(s.heap, cqe.userData));
  }

  lemma IntactReapOne(disk: F.Disk, s: Rings, step: Step)
    requires Intact(disk, s) && Enabled(disk, s, step) && step.ReapOne?
    ensures Intact(disk, Apply(disk, s, step))
  {
    ReapKeepsCq(disk, s);
  }

  /** Counting the first slot out leaves the others named. */
  lemma NamedPop(indices: seq<nat>, sqes: seq<F.Sqe>, heap: F.Heap, head: u32, n: nat)
    requires |indices| == |sqes| > 0 && n > 0 && Named(indices, sqes, heap, head, n)
    ensures Named(indices, sqes, heap, Wrap32(head + 1), n - 1)
    ensures indices[Slot(head, |sqes|)] == Slot(head, |sqes|) && sqes[Slot(head, |sqes|)].userData in heap
  {
    assert SlotAt(head, 0, |sqes|) == Slot(head, |sqes|);
    forall i: nat {:trigger SlotAt(Wrap32(head + 1), i, |sqes|)} | i < n - 1
      ensures SlotAt(Wrap32(head + 1), i, |sqes|) == SlotAt(head, i + 1, |sqes|)
    {
      SlotAtShift(head, i, |sqes|);
    }
  }

  lemma NotQueuedPop(s: Rings, fi: nat)
    requires RingSizes(s) && NotQueued(s, fi) && s.sqHead != s.sqTail
    ensures NotQueued(s.(sqHead := Wrap32(s.sqHead + 1)), fi)
  {
    LagFacts(s.sqHead, s.sqTail);
    forall i: nat {:trigger SlotAt(Wrap32(s.sqHead + 1), i, |s.sqes|)} | i < SqCount(s) - 1
      ensures SlotAt(Wrap32(s.sqHead + 1), i, |s.sqes|) == SlotAt(s.sqHead, i + 1, |s.sqes|)
    {
      SlotAtShift(s.sqHead, i, |s.sqes|);
    }
  }

  lemma SlotsNamedPop(s: Rings)
    requires RingSizes(s) && SlotsNamed(s) && s.sqHead != s.sqTail
    ensures SqCount(s.(sqHead := Wrap32(s.sqHead + 1))) == SqCount(s) - 1
    ensures SlotsNamed(s.(sqHead := Wrap32(s.sqHead + 1)))
    ensures var slot := Slot(s.sqHead, |s.sqes|);
            s.indices[slot] == slot && s.sqes[slot].userData in s.heap
  {
    LagFacts(s.sqHead, s.sqTail);
    NamedPop(s.indices, s.sqes, s.heap, s.sqHead, SqCount(s));
  }

  lemma ConsumeFrom(disk: F.Disk, s: Rings, slot: nat)
    requires RingSizes(s) && Enabled(disk, s, KernelConsume) && slot < |s.sqes|
    requires slot == Slot(s.sqHead, |s.sqes|) && s.indices[slot] == slot
    ensures Apply(disk, s, KernelConsume)
         == s.(sqHead := Wrap32(s.sqHead + 1), inflight := s.inflight + [s.sqes[slot]],
               log := s.log.(consumed := s.log.consumed + [s.sqes[slot]]))
  {
  }

  /** What the kernel's consumption does, the slots being named. */
  lemma ConsumeFacts(disk: F.Disk, s: Rings)
    requires RingSizes(s) && SlotsNamed(s) && Enabled(disk, s, KernelConsume)
    ensures var slot := Slot(s.sqHead, |s.sqes|);
            && s.indices[slot] == slot && s.sqes[slot].userData in s.heap
            && Apply(disk, s, KernelConsume)
               == s.(sqHead := Wrap32(s.sqHead + 1), inflight := s.inflight + [s.sqes[slot]],
                     log := s.log.(consumed := s.log.consumed + [s.sqes[slot]]))
  {
    SlotsNamedPop(s);
    ConsumeFrom(disk, s, Slot(s.sqHead, |s.sqes|));
  }

  lemma ConsumeIsKernelOnly(disk: F.Disk, s: Rings)
    requires RingSizes(s) && SlotsNamed(s) && Enabled(disk, s, KernelConsume)
    ensures s.indices[Slot(s.sqHead, |s.indices|)] < |s.sqes|
    ensures KernelOnly(s, Apply(disk, s, KernelConsume))
  {
    ConsumeFacts(disk, s);
    LagFacts(s.sqHead, s.sqTail);
  }

  lemma IntactConsume(disk: F.Disk, s: Rings)
    requires Intact(disk, s) && Enabled(disk, s, KernelConsume)
    ensures Intact(disk, Apply(disk, s, KernelConsume))
  {
    var s' := Apply(disk, s, KernelConsume);
    ConsumeFacts(disk, s);
    SlotsNamedPop(s);
    if s.pc.Filling? && s.pc.fields <= 6 {
      NotQueuedPop(s, s.pc.fi);
    }
    assert CqQueue(s') == CqQueue(s);
    assert CqIntact(s') && PcIntact(s');
  }

  lemma IntactComplete(disk: F.Disk, s: Rings, j: nat, res: int)
    requires Intact(disk, s) && Enabled(disk, s, KernelComplete(j, res))
    ensures Intact(disk, Apply(disk, s, KernelComplete(j, res)))
  {
    var sqe := s.inflight[j];
    PostExtends(s, F.Cqe(sqe.userData, res));
    F.ReadvKeepsShape(disk, s.heap, sqe, res);
  }

  lemma CompleteIsKernelOnly(disk: F.Disk, s: Rings, j: nat, res: int)
    requires RingSizes(s) && F.HeapOk(disk, s.heap) && CqIntact(s) && Enabled(disk, s, KernelComplete(j, res))
    ensures KernelOnly(s, Apply(disk, s, KernelComplete(j, res)))
  {
    var sqe := s.inflight[j];
    PostExtends(s, F.Cqe(sqe.userData, res));
    F.ReadvKeepsShape(disk, s.heap, sqe, res);
  }

  lemma StepKeepsIntact(disk: F.Disk, s: Rings, step: Step)
    requires Intact(disk, s) && Enabled(disk, s, step)
    ensures Intact(disk, Apply(disk, s, step))
  {
    match step {
      case BeginSubmit(_, _, _) => IntactProgram(disk, s, step);
      case WriteField => IntactProgram(disk, s, step);
      case WriteIndex => IntactProgram(disk, s, step);
      case PublishTail => IntactPublish(disk, s, step);
      case BeginReap => IntactReap(disk, s, step);
      case ReapOne => IntactReapOne(disk, s, step);
      case EndReap => IntactReap(disk, s, step);
      case PublishHead => IntactReap(disk, s, step);
      case KernelConsume => IntactConsume(disk, s);
      case KernelComplete(j, res) => IntactComplete(disk, s, j, res);
    }
  }

  lemma {:induction false} RunKeepsIntact(disk: F.Disk, s: Rings, steps: seq<Step>)
    requires Intact(disk, s) && Legal(disk, s, steps)
    ensures Intact(disk, Exec(disk, s, steps))
    decreases |steps|
  {
    if steps != [] {
      StepKeepsIntact(disk, s, steps[0]);
      RunKeepsIntact(disk, Apply(disk, s, steps[0]), steps[1..]);
    }
  }

  lemma ReachedIsIntact(disk: F.Disk, start: Rings, run: seq<Step>, s: Rings)
    requires Reached(disk, start, run, s)
    ensures Intact(disk, s)
  {
    LagFacts(start.sqHead, start.sqTail);
    LagFacts(start.cqHead, start.cqTail);
    assert CqQueue(start) == [] && F.ReapedCqes([]) == [];
    RunKeepsIntact(disk, start, run);
  }

  predicate IsKernel(step: Step) {
    step.KernelConsume? || step.KernelComplete?
  }

  /** A step of the kernel's thread or of read_from_cq. */
  predicate IsReaping(step: Step) {
    IsKernel(step) || step.BeginReap? || step.ReapOne? || step.EndReap? || step.PublishHead?
  }

  /** From trace `t0` to `t` there have been only steps of the kernel. */
  ghost predicate OnlyKernel(t0: seq<Step>, t: seq<Step>) {
    t0 <= t && forall i :: |t0| <= i < |t| ==> IsKernel(t[i])
  }

  ghost predicate OnlyReaping(t0: seq<Step>, t: seq<Step>) {
    t0 <= t && forall i :: |t0| <= i < |t| ==> IsReaping(t[i])
  }

  /** Reaping leaves a run as careful as it was, and adds nothing to what waits to be consumed. */
  lemma {:induction false} ReapingIsCareful(disk: F.Disk, s: Rings, steps: seq<Step>)
    requires Intact(disk, s) && Legal(disk, s, steps) && forall i :: 0 <= i < |steps| ==> IsReaping(steps[i])
    ensures Careful(disk, s, steps) && SqCount(Exec(disk, s, steps)) <= SqCount(s)
    decreases |steps|
  {
    if steps != [] {
      StepKeepsIntact(disk, s, steps[0]);
      ReapingKeepsCount(disk, s, steps[0]);
      assert forall i :: 0 <= i < |steps[1..]| ==> steps[1..][i] == steps[i + 1];
      ReapingIsCareful(disk, Apply(disk, s, steps[0]), steps[1..]);
    }
  }

  lemma ReapingKeepsCount(disk: F.Disk, s: Rings, step: Step)
    requires RingSizes(s) && SlotsNamed(s) && IsReaping(step) && Enabled(disk, s, step)
    ensures SqCount(Apply(disk, s, step)) <= SqCount(s)
  {
    if step.KernelConsume? {
      ConsumeIsKernelOnly(disk, s);
    }
  }

  lemma PostLeavesOldest(s: Rings, cqe: F.Cqe)
    requires RingSizes(s) && ReapHead(s) != s.cqTail
    requires Lag(ReapHead(s), s.cqTail) <= Lag(s.cqHead, s.cqTail) < |s.cqes|
    ensures var s' := s.(cqes := s.cqes[Slot(s.cqTail, |s.cqes|) := cqe], cqTail := Wrap32(s.cqTail + 1));
            ReapHead(s') != s'.cqTail && Oldest(s') == Oldest(s)
  {
    var s' := s.(cqes := s.cqes[Slot(s.cqTail, |s.cqes|) := cqe], cqTail := Wrap32(s.cqTail + 1));
    PostExtends(s, cqe);
    LagFacts(ReapHead(s), s'.cqTail);
    OldestPending(s);
    OldestPending(s');
    assert CqQueue(s')[0] == CqQueue(s)[0];
  }

  lemma CompleteLeavesOldest(disk: F.Disk, s: Rings, j: nat, res: int)
    requires RingSizes(s) && ReapHead(s) != s.cqTail && Enabled(disk, s, KernelComplete(j, res))
    requires Lag(ReapHead(s), s.cqTail) <= Lag(s.cqHead, s.cqTail)
    ensures var s' := Apply(disk, s, KernelComplete(j, res));
            ReapHead(s') == ReapHead(s) && ReapHead(s') != s'.cqTail && Oldest(s') == Oldest(s)
  {
    PostLeavesOldest(s, F.Cqe(s.inflight[j].userData, res));
  }

  ghost predicate NoneAddressed(sqes: seq<F.Sqe>, fi: nat) {
    forall j :: 0 <= j < |sqes| ==> sqes[j].addr != fi
  }

  /** No request in the kernel's hands or on the way there asks for a transfer into `fi`. */
  ghost predicate Unaddressed(s: Rings, fi: nat)
    requires RingSizes(s)
  {
    && NoneAddressed(s.inflight, fi)
    && NoneAddressed(Window(s.sqes, s.sqHead, SqCount(s)), fi)
  }

  lemma UnaddressedConsume(disk: F.Disk, s: Rings, fi: nat)
    requires RingSizes(s) && SlotsNamed(s) && Unaddressed(s, fi) && Enabled(disk, s, KernelConsume)
    ensures Unaddressed(Apply(disk, s, KernelConsume), fi)
  {
    ConsumeFacts(disk, s);
    WindowRest(s.sqes, s.sqHead, s.sqTail);
    NoneAddressedPop(s.inflight, Window(s.sqes, s.sqHead, SqCount(s)), fi);
  }

  lemma NoneAddressedPop(inflight: seq<F.Sqe>, queue: seq<F.Sqe>, fi: nat)
    requires queue != [] && NoneAddressed(inflight, fi) && NoneAddressed(queue, fi)
    ensures NoneAddressed(inflight + [queue[0]], fi) && NoneAddressed(queue[1..], fi)
  {
  }

  lemma KernelLeavesOldest(disk: F.Disk, s: Rings, step: Step)
    requires Intact(disk, s) && ReapHead(s) != s.cqTail && Unaddressed(s, Oldest(s).userData)
    requires IsKernel(step) && Enabled(disk, s, step)
    ensures OldestStays(s, Apply(disk, s, step)) && Unaddressed(Apply(disk, s, step), Oldest(s).userData)
  {
    OldestNamed(s);
    if step.KernelComplete? {
      CompleteLeavesOldest(disk, s, step.j, step.res);
    } else {
      UnaddressedConsume(disk, s, Oldest(s).userData);
    }
  }

  /** The completion to be reaped next, and its file_info with all buffers, are the same in both states. */
  ghost predicate OldestStays(s: Rings, s': Rings) {
    && |s.cqes| > 0 && |s'.cqes| > 0
    && ReapHead(s') == ReapHead(s) && ReapHead(s') != s'.cqTail && Oldest(s') == Oldest(s)
    && Oldest(s).userData in s.heap && Oldest(s).userData in s'.heap
    && s'.heap[Oldest(s).userData] == s.heap[Oldest(s).userData]
  }

  /**
   The kernel's moves commute with the printing of a completion as long as no request asks for a transfer into its
   file_info: however many it makes in the meantime, the completion and the buffers stay as they were, so the blocks
   printed one after the other are those printed at once.
   */
  lemma {:induction false} KernelCommutesWithPrinting(disk: F.Disk, s: Rings, steps: seq<Step>)
    requires Intact(disk, s) && ReapHead(s) != s.cqTail && Unaddressed(s, Oldest(s).userData)
    requires Legal(disk, s, steps) && forall i :: 0 <= i < |steps| ==> IsKernel(steps[i])
    ensures OldestStays(s, Exec(disk, s, steps))
    decreases |steps|
  {
    if steps == [] {
      OldestNamed(s);
    } else {
      KernelLeavesOldest(disk, s, steps[0]);
      StepKeepsIntact(disk, s, steps[0]);
      assert forall i :: 0 <= i < |steps[1..]| ==> steps[1..][i] == steps[i + 1];
      KernelCommutesWithPrinting(disk, Apply(disk, s, steps[0]), steps[1..]);
    }
  }

  lemma UnaddressedIfUncounted(heap: F.Heap, sqes: seq<F.Sqe>, fi: nat)
    requires F.RequestsOk(heap, sqes) && multiset(F.SqeIds(sqes))[fi] == 0
    ensures NoneAddressed(sqes, fi)
  {
    forall j | 0 <= j < |sqes|
      ensures sqes[j].addr != fi
    {
      assert F.SqeIds(sqes)[j] == sqes[j].userData == sqes[j].addr;
    }
  }

  /** When all submissions so far have found room, no request asks for a transfer into the oldest completion's file. */
  lemma OldestIsUnaddressed(disk: F.Disk, s: Rings)
    requires Good(disk, s) && ReapHead(s) != s.cqTail
    ensures Unaddressed(s, Oldest(s).userData)
  {
    OldestPending(s);
    F.WaitingIsAlone(Abs(s));
    UnaddressedIfUncounted(s.heap, s.inflight, Oldest(s).userData);
    QueuedRequests(disk, s);
    UnaddressedIfUncounted(s.heap, SqQueue(s), Oldest(s).userData);
  }

  /** What waits to be consumed is what the slots hold, and was submitted. */
  lemma QueuedRequests(disk: F.Disk, s: Rings)
    requires Good(disk, s)
    ensures SqQueue(s) == Window(s.sqes, s.sqHead, SqCount(s)) && F.RequestsOk(s.heap, SqQueue(s))
  {
    ResolveIsWindow(s.indices, s.sqes, s.sqHead, SqCount(s));
    LastRequests(s.heap, s.log.consumed, SqQueue(s));
  }

  lemma LastRequests(heap: F.Heap, a: seq<F.Sqe>, b: seq<F.Sqe>)
    requires F.RequestsOk(heap, a + b)
    ensures F.RequestsOk(heap, b)
  {
    forall i | 0 <= i < |b|
      ensures b[i].userData in heap && b[i] == F.RequestFor(b[i].userData, heap[b[i].userData])
    {
      assert (a + b)[|a| + i] == b[i];
    }
  }

  lemma OldestNamed(s: Rings)
    requires RingSizes(s) && CqesNamed(s.heap, CqQueue(s)) && ReapHead(s) != s.cqTail
    ensures Oldest(s).userData in s.heap
  {
    OldestPending(s);
    assert CqQueue(s)[0].userData in s.heap;
  }

  /** The completion about to be reaped belongs to a file_info of the shape that the printing loop expects. */
  lemma ReapFacts(disk: F.Disk, s: Rings)
    requires RingSizes(s) && s.pc.Reaping? && s.pc.head != s.cqTail
    requires CqesNamed(s.heap, CqQueue(s)) && F.HeapOk(disk, s.heap)
    ensures var fi := s.cqes[Slot(s.pc.head, |s.cqes|)].userData;
            fi in s.heap && IsSplit(s.heap[fi].fileSz, F.BLOCK_SZ, s.heap[fi].iovecs)
  {
    OldestPending(s);
    var fi := CqQueue(s)[0].userData;
    assert fi in s.heap;
  }

  lemma ReapIsProgress(disk: F.Disk, s: Rings)
    requires RingSizes(s) && s.pc.Reaping? && s.pc.head != s.cqTail
    ensures Waiting(Apply(disk, s, ReapOne)) < Waiting(s) && OnlyReaped(s, Apply(disk, s, ReapOne))
  {
    LagFacts(s.pc.head, s.cqTail);
  }

  /** With nothing left to reap, everything posted has been reaped. */
  lemma EmptyMeansReaped(s: Rings)
    requires RingSizes(s) && CqIntact(s) && Lag(ReapHead(s), s.cqTail) == 0
    ensures F.ReapedCqes(s.log.reaped) == s.log.posted
  {
    assert CqQueue(s) == [];
  }

  /** The tail is as far ahead of what was reaped as there are completions posted and not reaped. */
  lemma TailCountsPosted(s: Rings)
    requires RingSizes(s) && CqIntact(s)
    ensures |s.log.reaped| <= |s.log.posted|
    ensures F.ReapedCqes(s.log.reaped) <= s.log.posted
    ensures s.cqTail == Advance(ReapHead(s), |s.log.posted| - |s.log.reaped|)
  {
    LagFacts(ReapHead(s), s.cqTail);
    AdvanceIsSum(ReapHead(s), Lag(ReapHead(s), s.cqTail));
  }
}
