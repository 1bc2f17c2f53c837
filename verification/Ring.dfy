/**
 The rings as they lie in memory: free-running 32-bit counters, slots addressed by `counter & mask`,
 an index array between the submission counters and the SQEs. The program's thread advances one memory
 write at a time (submit_to_sq, read_from_cq), the kernel's thread consumes and completes in between.
 Every interleaving refines the queues of module Fifo.
 */
module Ring {
  import opened Words
  import opened Bytes
  import F = Fifo

  /** Where the program's thread stands; the parameters are its local variables. */
  datatype Pc =
    | Idle
    | Filling(fi: nat, tail: u32, fields: nat)
    | Publishing(fi: nat, tail: u32)
    | Reaping(head: u32)
    | Closing(head: u32)

  datatype Rings = Rings(
    sqHead: u32, sqTail: u32, indices: seq<nat>, sqes: seq<F.Sqe>,
    cqHead: u32, cqTail: u32, cqes: seq<F.Cqe>,
    pc: Pc, inflight: seq<F.Sqe>, heap: F.Heap, log: F.History)

  datatype Step =
    | BeginSubmit(fi: nat, fd: int, bufs: seq<seq<byte>>)
    | WriteField
    | WriteIndex
    | PublishTail
    | BeginReap
    | ReapOne
    | EndReap
    | PublishHead
    | KernelConsume
    | KernelComplete(j: nat, res: int)

  const SQE_FIELDS: nat := 7

  /** The SQE's fields in the order submit_to_sq stores them. */
  function StoreField(sqe: F.Sqe, k: nat, r: F.Sqe): F.Sqe {
    match k
    case 0 => sqe.(fd := r.fd)
    case 1 => sqe.(flags := r.flags)
    case 2 => sqe.(opcode := r.opcode)
    case 3 => sqe.(addr := r.addr)
    case 4 => sqe.(len := r.len)
    case 5 => sqe.(off := r.off)
    case _ => sqe.(userData := r.userData)
  }

  ghost predicate PartlyFilled(sqe: F.Sqe, r: F.Sqe, k: nat) {
    && (k > 0 ==> sqe.fd == r.fd)
    && (k > 1 ==> sqe.flags == r.flags)
    && (k > 2 ==> sqe.opcode == r.opcode)
    && (k > 3 ==> sqe.addr == r.addr)
    && (k > 4 ==> sqe.len == r.len)
    && (k > 5 ==> sqe.off == r.off)
    && (k > 6 ==> sqe.userData == r.userData)
  }

  ghost predicate RingSizes(s: Rings) {
    && IsRingSize(|s.sqes|)
    && |s.indices| == |s.sqes|
    && IsRingSize(|s.cqes|)
  }

  function SqCount(s: Rings): u32 {
    Lag(s.sqHead, s.sqTail)
  }

  /** The first completion that the program has not taken, published or not. */
  function ReapHead(s: Rings): u32 {
    match s.pc
    case Reaping(head) => head
    case Closing(head) => head
    case _ => s.cqHead
  }

  /** `n` SQEs from counter `head` on, found through the index array. */
  ghost function Resolve(indices: seq<nat>, sqes: seq<F.Sqe>, head: u32, n: nat): seq<F.Sqe>
    requires |indices| > 0 && |sqes| > 0
  {
    seq(n, i requires 0 <= i < n =>
      var index := indices[SlotAt(head, i, |indices|)];
      if index < |sqes| then sqes[index] else sqes[0])
  }

  /** The index array points each of the `n` slots from `head` on at the SQE of the same number. */
  ghost predicate Identity(indices: seq<nat>, head: u32, n: nat)
    requires |indices| > 0
  {
    forall i: nat :: i < n ==> indices[SlotAt(head, i, |indices|)] == SlotAt(head, i, |indices|)
  }

  /** What the kernel would consume, from the oldest on. */
  ghost function SqQueue(s: Rings): seq<F.Sqe>
    requires RingSizes(s)
  {
    Resolve(s.indices, s.sqes, s.sqHead, SqCount(s))
  }

  /** What the program has yet to reap, from the oldest on. */
  ghost function CqQueue(s: Rings): seq<F.Cqe>
    requires RingSizes(s)
  {
    Window(s.cqes, ReapHead(s), Lag(ReapHead(s), s.cqTail))
  }

  /** The refinement map. */
  ghost function Abs(s: Rings): F.Queues
    requires RingSizes(s)
  {
    F.Queues(SqQueue(s), s.inflight, CqQueue(s), s.heap, s.log)
  }

  ghost predicate Enabled(disk: F.Disk, s: Rings, step: Step)
    requires RingSizes(s)
  {
    match step
    case BeginSubmit(fi, fd, bufs) =>
      && s.pc.Idle?
      && fi !in s.heap              // a fresh allocation
      && F.CanAllocate(disk, fd, bufs)
    case WriteField => s.pc.Filling? && s.pc.fields < SQE_FIELDS && s.pc.fi in s.heap
    case WriteIndex => s.pc.Filling? && s.pc.fields == SQE_FIELDS
    case PublishTail => s.pc.Publishing? && s.pc.fi in s.heap
    case BeginReap => s.pc.Idle?
    case ReapOne => s.pc.Reaping? && s.pc.head != s.cqTail
    case EndReap => s.pc.Reaping? && s.pc.head == s.cqTail
    case PublishHead => s.pc.Closing?
    case KernelConsume => s.sqHead != s.sqTail
    case KernelComplete(j, res) =>
      && j < |s.inflight|
      && F.CanComplete(disk, s.heap, s.inflight[j], res)
      && Lag(s.cqHead, s.cqTail) < |s.cqes|
  }

  ghost function Apply(disk: F.Disk, s: Rings, step: Step): (s': Rings)
    requires RingSizes(s) && Enabled(disk, s, step)
    ensures RingSizes(s')
  {
    match step
    case BeginSubmit(fi, fd, bufs) =>
      var heap := s.heap[fi := F.NewFileInfo(disk, fd, bufs)];
      s.(heap := heap, pc := Filling(fi, s.sqTail, 0),
         log := s.log.(memory := s.log.memory[fi := F.PrintOf(heap, fi)]))
    case WriteField =>
      var index := Slot(s.pc.tail, |s.sqes|);
      s.(sqes := s.sqes[index := StoreField(s.sqes[index], s.pc.fields, F.RequestFor(s.pc.fi, s.heap[s.pc.fi]))],
         pc := s.pc.(fields := s.pc.fields + 1))
    case WriteIndex =>
      var index := Slot(s.pc.tail, |s.sqes|);
      s.(indices := s.indices[index := index], pc := Publishing(s.pc.fi, s.pc.tail))
    case PublishTail =>
      var nextTail := Wrap32(s.pc.tail + 1);
      s.(sqTail := if s.sqTail != nextTail then nextTail else s.sqTail,
         pc := Idle,
         log := s.log.(submitted := s.log.submitted + [F.RequestFor(s.pc.fi, s.heap[s.pc.fi])]))
    case BeginReap => s.(pc := Reaping(s.cqHead))
    case ReapOne =>
      var cqe := s.cqes[Slot(s.pc.head, |s.cqes|)];
      s.(pc := Reaping(Wrap32(s.pc.head + 1)),
         log := s.log.(reaped := s.log.reaped + [F.Reaped(cqe, F.PrintOf(s.heap, cqe.userData))]))
    case EndReap => s.(pc := Closing(s.pc.head))
    case PublishHead => s.(cqHead := s.pc.head, pc := Idle)
    case KernelConsume =>
      var index := s.indices[Slot(s.sqHead, |s.indices|)];
      if index < |s.sqes| then
        s.(sqHead := Wrap32(s.sqHead + 1), inflight := s.inflight + [s.sqes[index]],
           log := s.log.(consumed := s.log.consumed + [s.sqes[index]]))
      else
        s.(sqHead := Wrap32(s.sqHead + 1))   // dropped by the kernel
    case KernelComplete(j, res) =>
      var sqe := s.inflight[j];
      var cqe := F.Cqe(sqe.userData, res);
      s.(inflight := s.inflight[..j] + s.inflight[j + 1..],
         heap := F.KernelReadv(disk, s.heap, sqe, res),
         cqes := s.cqes[Slot(s.cqTail, |s.cqes|) := cqe],
         cqTail := Wrap32(s.cqTail + 1),
         log := s.log.(posted := s.log.posted + [cqe]))
  }

  /** A slot is free when the first store into it is made. The code relies on this, it does not look. */
  ghost predicate Room(s: Rings, step: Step) {
    step.WriteField? && s.pc.Filling? && s.pc.fields == 0 ==> SqCount(s) < |s.sqes|
  }

  ghost predicate RingInv(s: Rings) {
    && RingSizes(s)
    && SqCount(s) <= |s.sqes|
    && Identity(s.indices, s.sqHead, SqCount(s))
    && Lag(s.cqHead, s.cqTail) <= |s.cqes|
    && Lag(ReapHead(s), s.cqTail) <= Lag(s.cqHead, s.cqTail)
    && match s.pc
       case Filling(fi, tail, fields) =>
         && Claimed(s, fi, tail)
         && fields <= SQE_FIELDS
         && (fields > 0 ==> SqCount(s) < |s.sqes|)
         && PartlyFilled(s.sqes[Slot(tail, |s.sqes|)], F.RequestFor(fi, s.heap[fi]), fields)
       case Publishing(fi, tail) =>
         && Claimed(s, fi, tail)
         && SqCount(s) < |s.sqes|
         && s.sqes[Slot(tail, |s.sqes|)] == F.RequestFor(fi, s.heap[fi])
         && s.indices[Slot(tail, |s.indices|)] == Slot(tail, |s.indices|)
       case _ => true
  }

  /** The slot at `tail` is being filled for `fi`. */
  ghost predicate Claimed(s: Rings, fi: nat, tail: u32) {
    && tail == s.sqTail
    && fi in s.heap
    && fi !in F.SqeIds(s.log.submitted)
  }

  ghost predicate Good(disk: F.Disk, s: Rings) {
    RingInv(s) && F.Inv(disk, Abs(s))
  }

  /** What a step does to the abstract queues. */
  function EventOf(s: Rings, step: Step): F.Event
    requires step.PublishTail? ==> s.pc.Publishing?
  {
    match step
    case BeginSubmit(fi, fd, bufs) => F.Allocate(fi, fd, bufs)
    case PublishTail => F.Enqueue(s.pc.fi)
    case ReapOne => F.Reap
    case KernelConsume => F.Consume
    case KernelComplete(j, res) => F.Complete(j, res)
    case _ => F.Silent
  }

  lemma ResolveIsWindow(indices: seq<nat>, sqes: seq<F.Sqe>, head: u32, n: nat)
    requires |indices| == |sqes| > 0 && Identity(indices, head, n)
    ensures Resolve(indices, sqes, head, n) == Window(sqes, head, n)
  {
  }

  /** Filling the slot past the window changes nothing that the window shows. */
  lemma ResolveFill(indices: seq<nat>, sqes: seq<F.Sqe>, head: u32, n: nat, sqe: F.Sqe)
    requires |indices| == |sqes| && IsRingSize(|sqes|) && n < |sqes| && Identity(indices, head, n)
    ensures Resolve(indices, sqes[SlotAt(head, n, |sqes|) := sqe], head, n) == Resolve(indices, sqes, head, n)
  {
    WindowPush(sqes, head, n, sqe);
    ResolveIsWindow(indices, sqes, head, n);
    ResolveIsWindow(indices, sqes[SlotAt(head, n, |sqes|) := sqe], head, n);
  }

  /** Once its index is stored too, counting the slot in appends its SQE. */
  lemma ResolvePush(indices: seq<nat>, sqes: seq<F.Sqe>, head: u32, n: nat)
    requires |indices| == |sqes| && IsRingSize(|sqes|) && n < |sqes| && Identity(indices, head, n)
    requires indices[SlotAt(head, n, |sqes|)] == SlotAt(head, n, |sqes|)
    ensures Identity(indices, head, n + 1)
    ensures Resolve(indices, sqes, head, n + 1) == Resolve(indices, sqes, head, n) + [sqes[SlotAt(head, n, |sqes|)]]
  {
  }

  /** Counting the first slot out removes the oldest SQE. */
  lemma ResolvePop(indices: seq<nat>, sqes: seq<F.Sqe>, head: u32, n: nat)
    requires |indices| == |sqes| > 0 && n > 0 && Identity(indices, head, n)
    ensures indices[Slot(head, |indices|)] == Slot(head, |indices|)
    ensures Identity(indices, Wrap32(head + 1), n - 1)
    ensures Resolve(indices, sqes, head, n)[0] == sqes[Slot(head, |sqes|)]
    ensures Resolve(indices, sqes, Wrap32(head + 1), n - 1) == Resolve(indices, sqes, head, n)[1..]
  {
    assert SlotAt(head, 0, |indices|) == Slot(head, |indices|);
    forall i: nat {:trigger SlotAt(Wrap32(head + 1), i, |indices|)} | i < n - 1
      ensures SlotAt(Wrap32(head + 1), i, |indices|) == SlotAt(head, i + 1, |indices|)
    {
      SlotAtShift(head, i, |indices|);
    }
  }

  // ---------------------------------------------------------------- simulation, step by step

  ghost predicate Simulated(disk: F.Disk, s: Rings, step: Step)
    requires RingSizes(s) && Enabled(disk, s, step)
  {
    var s' := Apply(disk, s, step);
    && RingInv(s')
    && F.Enabled(disk, Abs(s), EventOf(s, step))
    && Abs(s') == F.Apply(disk, Abs(s), EventOf(s, step))
  }

  lemma SimBeginSubmit(disk: F.Disk, s: Rings, step: Step)
    requires Good(disk, s) && step.BeginSubmit? && Enabled(disk, s, step)
    ensures Simulated(disk, s, step)
  {
    var s' := Apply(disk, s, step);
    forall i | 0 <= i < |s.log.submitted|
      ensures F.SqeIds(s.log.submitted)[i] != step.fi
    {
      assert s.log.submitted[i].userData in s.heap;
    }
    assert SqQueue(s') == SqQueue(s);
  }

  lemma SimWriteField(disk: F.Disk, s: Rings, step: Step)
    requires RingInv(s) && step.WriteField? && Enabled(disk, s, step) && Room(s, step)
    ensures Simulated(disk, s, step)
  {
    var s' := Apply(disk, s, step);
    var index := Slot(s.pc.tail, |s.sqes|);
    LagFacts(s.sqHead, s.sqTail);
    assert index == SlotAt(s.sqHead, SqCount(s), |s.sqes|);
    ResolveFill(s.indices, s.sqes, s.sqHead, SqCount(s), s'.sqes[index]);
    assert s'.sqes == s.sqes[index := s'.sqes[index]];
  }

  lemma SimWriteIndex(disk: F.Disk, s: Rings, step: Step)
    requires RingInv(s) && step.WriteIndex? && Enabled(disk, s, step)
    ensures Simulated(disk, s, step)
  {
    var s' := Apply(disk, s, step);
    assert s.sqes[Slot(s.pc.tail, |s.sqes|)] == F.RequestFor(s.pc.fi, s.heap[s.pc.fi]);
    assert Identity(s'.indices, s.sqHead, SqCount(s));
    ResolveIsWindow(s.indices, s.sqes, s.sqHead, SqCount(s));
    ResolveIsWindow(s'.indices, s.sqes, s.sqHead, SqCount(s));
  }

  /** Counting the filled slot in extends the kernel's queue by one. */
  lemma PublishExtends(s: Rings)
    requires RingSizes(s) && SqCount(s) < |s.sqes| && Identity(s.indices, s.sqHead, SqCount(s))
    requires s.indices[Slot(s.sqTail, |s.indices|)] == Slot(s.sqTail, |s.indices|)
    ensures var s' := s.(sqTail := Wrap32(s.sqTail + 1));
            && s'.sqTail != s.sqTail
            && SqCount(s') == SqCount(s) + 1
            && Identity(s.indices, s.sqHead, SqCount(s'))
            && SqQueue(s') == SqQueue(s) + [s.sqes[Slot(s.sqTail, |s.sqes|)]]
  {
    TailAdvances(s.sqHead, s.sqTail, |s.sqes|);
    ResolvePush(s.indices, s.sqes, s.sqHead, SqCount(s));
  }

  lemma SimPublishTail(disk: F.Disk, s: Rings, step: Step)
    requires RingInv(s) && step.PublishTail? && Enabled(disk, s, step)
    ensures Simulated(disk, s, step)
  {
    var s' := Apply(disk, s, step);
    PublishExtends(s);
    assert SqQueue(s') == SqQueue(s) + [s.sqes[Slot(s.sqTail, |s.sqes|)]];
  }

  lemma SimReapSide(disk: F.Disk, s: Rings, step: Step)
    requires RingInv(s) && (step.BeginReap? || step.EndReap? || step.PublishHead?) && Enabled(disk, s, step)
    ensures Simulated(disk, s, step)
  {
    var s' := Apply(disk, s, step);
    assert SqQueue(s') == SqQueue(s);
    LagFacts(s'.cqHead, s'.cqTail);
  }

  /** The completion to be reaped next. */
  function Oldest(s: Rings): F.Cqe
    requires |s.cqes| > 0
  {
    s.cqes[Slot(ReapHead(s), |s.cqes|)]
  }

  lemma OldestPending(s: Rings)
    requires RingSizes(s) && ReapHead(s) != s.cqTail
    ensures CqQueue(s) != [] && CqQueue(s)[0] == Oldest(s)
  {
    WindowRest(s.cqes, ReapHead(s), s.cqTail);
  }

  lemma SimReapOne(disk: F.Disk, s: Rings, step: Step)
    requires RingInv(s) && step.ReapOne? && Enabled(disk, s, step)
    ensures Simulated(disk, s, step)
  {
    WindowRest(s.cqes, s.pc.head, s.cqTail);
    assert SqQueue(Apply(disk, s, step)) == SqQueue(s);
  }

  lemma SimConsume(disk: F.Disk, s: Rings, step: Step)
    requires RingInv(s) && step.KernelConsume? && Enabled(disk, s, step)
    ensures Simulated(disk, s, step)
  {
    var s' := Apply(disk, s, step);
    LagFacts(s.sqHead, s.sqTail);
    ResolvePop(s.indices, s.sqes, s.sqHead, SqCount(s));
    assert SqQueue(s') == SqQueue(s)[1..] && SqQueue(s)[0] == s.sqes[Slot(s.sqHead, |s.sqes|)];
  }

  /** The completion that the kernel posts extends the program's queue by one. */
  lemma PostExtends(s: Rings, cqe: F.Cqe)
    requires RingSizes(s) && Lag(ReapHead(s), s.cqTail) <= Lag(s.cqHead, s.cqTail) < |s.cqes|
    ensures var s' := s.(cqes := s.cqes[Slot(s.cqTail, |s.cqes|) := cqe], cqTail := Wrap32(s.cqTail + 1));
            && CqQueue(s') == CqQueue(s) + [cqe]
            && Lag(s'.cqHead, s'.cqTail) == Lag(s.cqHead, s.cqTail) + 1
            && Lag(ReapHead(s'), s'.cqTail) == Lag(ReapHead(s), s.cqTail) + 1
  {
    TailPush(s.cqes, ReapHead(s), s.cqTail, cqe);
    RingSizeBound(|s.cqes|);
    LagFacts(s.cqHead, s.cqTail);
  }

  lemma CompleteKeepsRing(disk: F.Disk, s: Rings, step: Step)
    requires RingInv(s) && F.HeapOk(disk, s.heap) && F.RequestsOk(s.heap, s.inflight)
    requires step.KernelComplete? && Enabled(disk, s, step)
    ensures RingInv(Apply(disk, s, step))
  {
    var sqe := s.inflight[step.j];
    PostExtends(s, F.Cqe(sqe.userData, step.res));
    F.ReadvDelivers(disk, s.heap, sqe, step.res);
    var heap' := F.KernelReadv(disk, s.heap, sqe, step.res);
    assert forall fi :: fi in s.heap ==> F.RequestFor(fi, heap'[fi]) == F.RequestFor(fi, s.heap[fi]);
  }

  lemma SimComplete(disk: F.Disk, s: Rings, step: Step)
    requires RingInv(s) && F.HeapOk(disk, s.heap) && F.RequestsOk(s.heap, s.inflight)
    requires step.KernelComplete? && Enabled(disk, s, step)
    ensures Simulated(disk, s, step)
  {
    var s' := Apply(disk, s, step);
    CompleteKeepsRing(disk, s, step);
    PostExtends(s, F.Cqe(s.inflight[step.j].userData, step.res));
    assert SqQueue(s') == SqQueue(s);
  }

  /** One step of either thread is one event of the queues, and keeps every invariant. */
  lemma StepRefines(disk: F.Disk, s: Rings, step: Step)
    requires Good(disk, s) && Enabled(disk, s, step) && Room(s, step)
    ensures Simulated(disk, s, step)
    ensures Good(disk, Apply(disk, s, step))
  {
    match step {
      case BeginSubmit(_, _, _) => SimBeginSubmit(disk, s, step);
      case WriteField => SimWriteField(disk, s, step);
      case WriteIndex => SimWriteIndex(disk, s, step);
      case PublishTail => SimPublishTail(disk, s, step);
      case BeginReap => SimReapSide(disk, s, step);
      case ReapOne => SimReapOne(disk, s, step);
      case EndReap => SimReapSide(disk, s, step);
      case PublishHead => SimReapSide(disk, s, step);
      case KernelConsume => SimConsume(disk, s, step);
      case KernelComplete(_, _) => SimComplete(disk, s, step);
    }
    F.StepKeeps(disk, Abs(s), EventOf(s, step));
  }
}
