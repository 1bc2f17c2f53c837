/**
 Nothing gets stuck on the rings: from every state that submissions with room can lead to, what has been submitted can
 be consumed, completed and reaped.
 */
module Drain {
  import opened Words
  import opened Blocks
  import opened Ring
  import opened RingIntact
  import opened RingRuns
  import F = Fifo

  /** Nothing is under way, waiting, in flight or unreaped. */
  ghost predicate Quiet(s: Rings) {
    s.pc.Idle? && s.sqHead == s.sqTail && s.inflight == [] && s.cqHead == s.cqTail
  }

  /** How much of a submission is still to be stored. */
  function Stage(s: Rings): int {
    match s.pc
    case Filling(_, _, fields) => SQE_FIELDS + 2 - fields
    case Publishing(_, _) => 1
    case _ => 0
  }

  /** How far read_from_cq has to go before it takes the next completion. */
  function Rank(s: Rings): nat {
    match s.pc
    case Reaping(head) => if head == s.cqTail then 4 else 1
    case Closing(_) => 3
    case Idle => 2
    case _ => 0
  }

  /** The lexicographic order by which the steps below go down. */
  ghost predicate Below(e: Rings, s: Rings) {
    if Stage(e) != Stage(s) then Stage(e) < Stage(s)
    else if Waiting(e) != Waiting(s) then Waiting(e) < Waiting(s)
    else if SqCount(e) != SqCount(s) then SqCount(e) < SqCount(s)
    else if |e.inflight| != |s.inflight| then |e.inflight| < |s.inflight|
    else Rank(e) < Rank(s)
  }

  /** A well-formed request can be served, in full or with less, or fail. */
  lemma CanServe(disk: F.Disk, heap: F.Heap, sqe: F.Sqe, res: int)
    requires F.HeapOk(disk, heap)
    requires sqe.userData in heap && sqe == F.RequestFor(sqe.userData, heap[sqe.userData])
    ensures sqe.fd in disk && (res <= |disk[sqe.fd]| ==> F.CanComplete(disk, heap, sqe, res))
  {
    var info := heap[sqe.userData];
    SplitFacts(info.fileSz, F.BLOCK_SZ, info.iovecs);
    assert info.iovecs[..sqe.len] == info.iovecs;
  }

  lemma ConsumeIsBelow(disk: F.Disk, s: Rings)
    requires RingSizes(s) && SlotsNamed(s) && Enabled(disk, s, KernelConsume)
    ensures Below(Apply(disk, s, KernelConsume), s)
  {
    ConsumeFacts(disk, s);
    LagFacts(s.sqHead, s.sqTail);
  }

  lemma CompleteIsBelow(disk: F.Disk, s: Rings, res: int)
    requires RingInv(s) && Enabled(disk, s, KernelComplete(0, res))
    ensures Below(Apply(disk, s, KernelComplete(0, res)), s)
  {
    PostExtends(s, F.Cqe(s.inflight[0].userData, res));
  }

  lemma ProgramIsBelow(disk: F.Disk, s: Rings, step: Step)
    requires RingInv(s) && Enabled(disk, s, step)
    requires step.WriteField? || step.WriteIndex? || step.PublishTail?
    ensures Below(Apply(disk, s, step), s)
  {
  }

  lemma ReapIsBelow(disk: F.Disk, s: Rings, step: Step)
    requires RingInv(s) && Enabled(disk, s, step)
    requires step.BeginReap? ==> s.cqHead != s.cqTail
    requires step.BeginReap? || step.ReapOne? || step.EndReap? || step.PublishHead?
    ensures Below(Apply(disk, s, step), s)
  {
    if step.ReapOne? {
      ReapIsProgress(disk, s);
    }
  }

  /** As long as not all is quiet, one of the two threads has a step to take that brings quiet nearer. */
  lemma Next(disk: F.Disk, s: Rings) returns (step: Step)
    requires Good(disk, s) && SlotsNamed(s) && !Quiet(s)
    ensures Enabled(disk, s, step) && Room(s, step) && !step.BeginSubmit? && Below(Apply(disk, s, step), s)
  {
    LagFacts(s.sqHead, s.sqTail);
    LagFacts(s.cqHead, s.cqTail);
    if s.sqHead != s.sqTail {
      step := KernelConsume;
      ConsumeIsBelow(disk, s);
    } else if s.inflight != [] && Lag(s.cqHead, s.cqTail) < |s.cqes| {
      CanServe(disk, s.heap, s.inflight[0], |disk[s.heap[s.inflight[0].userData].fd]|);
      step := KernelComplete(0, |disk[s.inflight[0].fd]|);
      CompleteIsBelow(disk, s, step.res);
    } else if s.pc.Filling? || s.pc.Publishing? {
      step := if s.pc.Publishing? then PublishTail else if s.pc.fields < SQE_FIELDS then WriteField else WriteIndex;
      ProgramIsBelow(disk, s, step);
    } else {
      step := NextReap(s);
      ReapIsBelow(disk, s, step);
    }
  }

  function NextReap(s: Rings): Step {
    match s.pc
    case Reaping(head) => if head == s.cqTail then EndReap else ReapOne
    case Closing(_) => PublishHead
    case _ => BeginReap
  }

  /** From every such state all requests submitted, or being submitted, can be reaped. */
  lemma {:induction false} CanDrain(disk: F.Disk, s: Rings) returns (steps: seq<Step>)
    requires Good(disk, s) && Intact(disk, s)
    ensures Legal(disk, s, steps) && Careful(disk, s, steps) && forall i :: 0 <= i < |steps| ==> !steps[i].BeginSubmit?
    ensures Quiet(Exec(disk, s, steps)) && Good(disk, Exec(disk, s, steps))
    decreases Stage(s), Waiting(s), SqCount(s), |s.inflight|, Rank(s)
  {
    if Quiet(s) {
      steps := [];
    } else {
      var step := Next(disk, s);
      StepRefines(disk, s, step);
      StepKeepsIntact(disk, s, step);
      var rest := CanDrain(disk, Apply(disk, s, step));
      steps := [step] + rest;
      assert steps[1..] == rest;
    }
  }

  /** When all is quiet, what was submitted is what was reaped. */
  lemma QuietMeansReaped(disk: F.Disk, s: Rings)
    requires Good(disk, s) && Quiet(s)
    ensures multiset(F.SqeIds(s.log.submitted)) == multiset(F.CqeIds(F.ReapedCqes(s.log.reaped)))
  {
    LagFacts(s.sqHead, s.sqTail);
    LagFacts(s.cqHead, s.cqTail);
    assert SqQueue(s) == [] && CqQueue(s) == [];
    assert s.log.submitted == s.log.consumed && s.log.posted == F.ReapedCqes(s.log.reaped);
  }

  /** Every careful run from empty rings can be continued until all its requests have been reaped. */
  lemma EveryRunCanDrain(disk: F.Disk, s0: Rings, run: seq<Step>) returns (rest: seq<Step>)
    requires IsInit(s0) && Legal(disk, s0, run) && Careful(disk, s0, run)
    ensures var s := Exec(disk, s0, run);
            && Legal(disk, s, rest) && forall i :: 0 <= i < |rest| ==> !rest[i].BeginSubmit?
    ensures var e := Exec(disk, Exec(disk, s0, run), rest);
            Quiet(e) && multiset(F.SqeIds(e.log.submitted)) == multiset(F.CqeIds(F.ReapedCqes(e.log.reaped)))
  {
    var s := Exec(disk, s0, run);
    assert Reached(disk, s0, run, s);
    ReachedIsGood(disk, s0, run, s);
    ReachedIsIntact(disk, s0, run, s);
    rest := CanDrain(disk, s);
    QuietMeansReaped(disk, Exec(disk, s, rest));
  }
}
