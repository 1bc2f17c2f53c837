/**
 What the kernel is asked to do, over every run of the rings: only to read. This needs no room in the submission ring,
 because overwriting one read with another, field by field, still leaves a read.
 */
module Requests {
  import opened Words
  import opened Ring
  import opened RingRuns
  import opened RingIntact
  import F = Fifo

  ghost predicate AllReads(sqes: seq<F.Sqe>) {
    forall k :: 0 <= k < |sqes| ==> F.IsRead(sqes[k])
  }

  /** The slot being filled is a read once the fields that make it one are stored. */
  ghost predicate BecomesRead(s: Rings)
    requires RingSizes(s)
  {
    match s.pc
    case Filling(_, tail, fields) =>
      && (fields > 1 ==> s.sqes[Slot(tail, |s.sqes|)].flags == 0)
      && (fields > 2 ==> s.sqes[Slot(tail, |s.sqes|)].opcode == F.IORING_OP_READV)
    case Publishing(_, tail) => F.IsRead(s.sqes[Slot(tail, |s.sqes|)])
    case _ => true
  }

  /** Every slot that the kernel may look at holds a read, and so did those it has looked at. */
  ghost predicate OnlyReads(s: Rings)
    requires RingSizes(s)
  {
    AllReads(Window(s.sqes, s.sqHead, SqCount(s))) && AllReads(s.log.consumed) && BecomesRead(s)
  }

  /** Storing a field of a read into a read leaves a read. */
  lemma StoreKeepsReads(sqes: seq<F.Sqe>, head: u32, n: nat, index: nat, k: nat, r: F.Sqe)
    requires index < |sqes| && AllReads(Window(sqes, head, n)) && F.IsRead(r)
    ensures AllReads(Window(sqes[index := StoreField(sqes[index], k, r)], head, n))
  {
    var sqes' := sqes[index := StoreField(sqes[index], k, r)];
    forall i | 0 <= i < n
      ensures F.IsRead(Window(sqes', head, n)[i])
    {
      assert F.IsRead(Window(sqes, head, n)[i]);
    }
  }

  lemma WriteKeeps(disk: F.Disk, s: Rings)
    requires RingSizes(s) && OnlyReads(s) && Enabled(disk, s, WriteField)
    ensures OnlyReads(Apply(disk, s, WriteField))
  {
    StoreKeepsReads(s.sqes, s.sqHead, SqCount(s), Slot(s.pc.tail, |s.sqes|), s.pc.fields,
                    F.RequestFor(s.pc.fi, s.heap[s.pc.fi]));
  }

  lemma PublishKeeps(disk: F.Disk, s: Rings)
    requires Intact(disk, s) && OnlyReads(s) && Enabled(disk, s, PublishTail)
    ensures OnlyReads(Apply(disk, s, PublishTail))
  {
    WindowGrows(s.sqes, s.sqHead, s.sqTail);
    var slot := Slot(s.sqTail, |s.sqes|);
    ReadsPrefix(Window(s.sqes, s.sqHead, Lag(s.sqHead, Wrap32(s.sqTail + 1))), Window(s.sqes, s.sqHead, SqCount(s)),
                s.sqes[slot]);
  }

  lemma ReadsPrefix(queue: seq<F.Sqe>, front: seq<F.Sqe>, last: F.Sqe)
    requires queue <= front + [last] && AllReads(front) && F.IsRead(last)
    ensures AllReads(queue)
  {
    forall i | 0 <= i < |queue|
      ensures F.IsRead(queue[i])
    {
      assert queue[i] == (front + [last])[i];
    }
  }

  lemma ConsumeKeeps(disk: F.Disk, s: Rings)
    requires Intact(disk, s) && OnlyReads(s) && Enabled(disk, s, KernelConsume)
    ensures OnlyReads(Apply(disk, s, KernelConsume))
  {
    ConsumeFacts(disk, s);
    WindowRest(s.sqes, s.sqHead, s.sqTail);
    ReadsPop(s.log.consumed, Window(s.sqes, s.sqHead, SqCount(s)));
  }

  lemma ReadsPop(consumed: seq<F.Sqe>, queue: seq<F.Sqe>)
    requires queue != [] && AllReads(consumed) && AllReads(queue)
    ensures AllReads(consumed + [queue[0]]) && AllReads(queue[1..])
  {
  }

  lemma StepKeepsReads(disk: F.Disk, s: Rings, step: Step)
    requires Intact(disk, s) && OnlyReads(s) && Enabled(disk, s, step)
    ensures OnlyReads(Apply(disk, s, step))
  {
    match step
    case WriteField => WriteKeeps(disk, s);
    case PublishTail => PublishKeeps(disk, s);
    case KernelConsume => ConsumeKeeps(disk, s);
    case _ =>
  }

  lemma {:induction false} RunKeepsReads(disk: F.Disk, s: Rings, steps: seq<Step>)
    requires Intact(disk, s) && OnlyReads(s) && Legal(disk, s, steps)
    ensures OnlyReads(Exec(disk, s, steps))
    decreases |steps|
  {
    if steps != [] {
      StepKeepsReads(disk, s, steps[0]);
      StepKeepsIntact(disk, s, steps[0]);
      RunKeepsReads(disk, Apply(disk, s, steps[0]), steps[1..]);
    }
  }

  /**
   Over every run, with or without room: all that the kernel is ever handed is readv requests without flags, readv being
   operation 1.
   */
  lemma OnlyReadsAreConsumed(disk: F.Disk, start: Rings, run: seq<Step>, s: Rings)
    requires Reached(disk, start, run, s)
    ensures forall k :: 0 <= k < |s.log.consumed| ==>
              s.log.consumed[k].flags == 0 && s.log.consumed[k].opcode == 1
  {
    ReachedIsIntact(disk, start, [], start);
    RunKeepsReads(disk, start, run);
  }
}
