/**
 One submission of submit_to_sq against the kernel's thread, in any state a run can reach: every interleaving appends
 exactly its own request if and only if a slot is free; with no slot free, the kernel may find a request half
 overwritten, or an earlier one gone.
 */
module Submission {
  import opened Words
  import opened Ring
  import opened RingIntact
  import opened RingRuns
  import F = Fifo

  /** What the kernel has taken and would take: the requests as it sees them. */
  ghost function Taken(s: Rings): seq<F.Sqe>
    requires RingSizes(s)
  {
    s.log.consumed + SqQueue(s)
  }

  function RequestOf(s: Rings): F.Sqe
    requires (s.pc.Filling? || s.pc.Publishing?) && s.pc.fi in s.heap
  {
    F.RequestFor(s.pc.fi, s.heap[s.pc.fi])
  }

  /** The steps that can come between the read of the tail and the store to it, of either thread. */
  predicate InBetween(step: Step) {
    step.WriteField? || step.WriteIndex? || step.KernelConsume? || step.KernelComplete?
  }

  /** From trace `t0` to `t` there have been only such steps. */
  ghost predicate OnlyBetween(t0: seq<Step>, t: seq<Step>) {
    t0 <= t && forall i :: |t0| <= i < |t| ==> InBetween(t[i])
  }

  /** A run from the read of the tail, or later, to the store to it. */
  ghost predicate Rest(disk: F.Disk, s: Rings, steps: seq<Step>) {
    && RingSizes(s) && Legal(disk, s, steps)
    && steps != [] && steps[|steps| - 1].PublishTail?
    && forall i :: 0 <= i < |steps| - 1 ==> InBetween(steps[i])
  }

  /** A run of one whole submission, the kernel making any moves in between. */
  ghost predicate Whole(disk: F.Disk, s: Rings, begin: Step, steps: seq<Step>) {
    && RingSizes(s) && Legal(disk, s, steps)
    && steps != [] && steps[0] == begin
    && Rest(disk, Apply(disk, s, begin), steps[1..])
  }

  /** At the end of the run the kernel has taken, or would take, what it would have before, and then `r`. */
  ghost predicate Appends(disk: F.Disk, s: Rings, steps: seq<Step>, r: F.Sqe)
    requires RingSizes(s) && Legal(disk, s, steps)
  {
    Taken(Exec(disk, s, steps)) == Taken(s) + [r]
  }

  // ---------------------------------------------------------------- with a free slot

  /** A submission is under way into a free slot, which holds what has been stored so far. */
  ghost predicate Underway(disk: F.Disk, s: Rings) {
    && Intact(disk, s) && SqCount(s) < |s.sqes|
    && match s.pc
       case Filling(fi, tail, fields) =>
         fields <= SQE_FIELDS && PartlyFilled(s.sqes[Slot(tail, |s.sqes|)], RequestOf(s), fields)
       case Publishing(fi, tail) => s.sqes[Slot(tail, |s.sqes|)] == RequestOf(s)
       case _ => false
  }

  lemma NamedIsIdentity(s: Rings)
    requires RingSizes(s) && SlotsNamed(s)
    ensures Identity(s.indices, s.sqHead, SqCount(s))
  {
  }

  lemma QueuePops(s: Rings)
    requires RingSizes(s) && SlotsNamed(s) && s.sqHead != s.sqTail
    ensures var s' := s.(sqHead := Wrap32(s.sqHead + 1));
            SqQueue(s) == [s.sqes[Slot(s.sqHead, |s.sqes|)]] + SqQueue(s')
  {
    NamedIsIdentity(s);
    LagFacts(s.sqHead, s.sqTail);
    ResolvePop(s.indices, s.sqes, s.sqHead, SqCount(s));
  }

  /** The kernel's moves take nothing out of its own view, and nobody's request changes. */
  lemma ConsumeKeepsTaken(disk: F.Disk, s: Rings)
    requires RingSizes(s) && SlotsNamed(s) && Enabled(disk, s, KernelConsume)
    ensures Taken(Apply(disk, s, KernelConsume)) == Taken(s)
  {
    var popped := s.(sqHead := Wrap32(s.sqHead + 1));
    ConsumeFacts(disk, s);
    QueuePops(s);
    assert SqQueue(Apply(disk, s, KernelConsume)) == SqQueue(popped);
  }

  lemma CompleteKeepsTaken(disk: F.Disk, s: Rings, j: nat, res: int)
    requires RingSizes(s) && F.HeapOk(disk, s.heap) && Enabled(disk, s, KernelComplete(j, res))
    ensures var s' := Apply(disk, s, KernelComplete(j, res));
            Taken(s') == Taken(s) && SameRequests(s.heap, s'.heap)
  {
    F.ReadvKeepsShape(disk, s.heap, s.inflight[j], res);
    assert SqQueue(Apply(disk, s, KernelComplete(j, res))) == SqQueue(s);
  }

  lemma KernelKeepsTaken(disk: F.Disk, s: Rings, step: Step)
    requires Intact(disk, s) && (s.pc.Filling? || s.pc.Publishing?) && IsKernel(step) && Enabled(disk, s, step)
    ensures var s' := Apply(disk, s, step);
            && Intact(disk, s') && Taken(s') == Taken(s) && SqCount(s') <= SqCount(s)
            && s'.pc == s.pc && s'.sqes == s.sqes && RequestOf(s') == RequestOf(s)
  {
    StepKeepsIntact(disk, s, step);
    if step.KernelConsume? {
      ConsumeKeepsTaken(disk, s);
      ConsumeFacts(disk, s);
      LagFacts(s.sqHead, s.sqTail);
    } else {
      CompleteKeepsTaken(disk, s, step.j, step.res);
    }
  }

  lemma FieldKeepsTaken(disk: F.Disk, s: Rings)
    requires Underway(disk, s) && Enabled(disk, s, WriteField)
    ensures var s' := Apply(disk, s, WriteField);
            Underway(disk, s') && Taken(s') == Taken(s) && RequestOf(s') == RequestOf(s)
  {
    var s' := Apply(disk, s, WriteField);
    var index := Slot(s.sqTail, |s.sqes|);
    StepKeepsIntact(disk, s, WriteField);
    NamedIsIdentity(s);
    TailAdvances(s.sqHead, s.sqTail, |s.sqes|);
    ResolveFill(s.indices, s.sqes, s.sqHead, SqCount(s), s'.sqes[index]);
    assert s'.sqes == s.sqes[index := s'.sqes[index]];
  }

  lemma IndexKeepsTaken(disk: F.Disk, s: Rings)
    requires Underway(disk, s) && Enabled(disk, s, WriteIndex)
    ensures var s' := Apply(disk, s, WriteIndex);
            Underway(disk, s') && Taken(s') == Taken(s) && RequestOf(s') == RequestOf(s)
  {
    var s' := Apply(disk, s, WriteIndex);
    StepKeepsIntact(disk, s, WriteIndex);
    NamedIsIdentity(s);
    NamedIsIdentity(s');
    ResolveIsWindow(s.indices, s.sqes, s.sqHead, SqCount(s));
    ResolveIsWindow(s'.indices, s.sqes, s.sqHead, SqCount(s));
  }

  lemma StepInBetween(disk: F.Disk, s: Rings, step: Step)
    requires Underway(disk, s) && InBetween(step) && Enabled(disk, s, step)
    ensures var s' := Apply(disk, s, step);
            Underway(disk, s') && Taken(s') == Taken(s) && RequestOf(s') == RequestOf(s)
  {
    if step.WriteField? {
      FieldKeepsTaken(disk, s);
    } else if step.WriteIndex? {
      IndexKeepsTaken(disk, s);
    } else {
      KernelKeepsTaken(disk, s, step);
    }
  }

  lemma PublishAppends(disk: F.Disk, s: Rings)
    requires Underway(disk, s) && Enabled(disk, s, PublishTail)
    ensures Taken(Apply(disk, s, PublishTail)) == Taken(s) + [RequestOf(s)]
  {
    var s' := Apply(disk, s, PublishTail);
    NamedIsIdentity(s);
    PublishExtends(s);
    assert SqQueue(s') == SqQueue(s) + [RequestOf(s)];
  }

  lemma RestTail(disk: F.Disk, s: Rings, steps: seq<Step>)
    requires Rest(disk, s, steps) && |steps| > 1
    ensures InBetween(steps[0]) && Enabled(disk, s, steps[0]) && Rest(disk, Apply(disk, s, steps[0]), steps[1..])
    ensures Exec(disk, s, steps) == Exec(disk, Apply(disk, s, steps[0]), steps[1..])
  {
  }

  lemma RestLast(disk: F.Disk, s: Rings, steps: seq<Step>)
    requires Rest(disk, s, steps) && |steps| == 1
    ensures steps[0] == PublishTail && Enabled(disk, s, PublishTail)
    ensures Exec(disk, s, steps) == Apply(disk, s, PublishTail)
  {
    assert steps[1..] == [];
  }

  lemma {:induction false} RestAppends(disk: F.Disk, s: Rings, steps: seq<Step>)
    requires Underway(disk, s) && Rest(disk, s, steps)
    ensures Appends(disk, s, steps, RequestOf(s))
    decreases |steps|
  {
    if |steps| == 1 {
      RestLast(disk, s, steps);
      PublishAppends(disk, s);
    } else {
      RestTail(disk, s, steps);
      StepInBetween(disk, s, steps[0]);
      RestAppends(disk, Apply(disk, s, steps[0]), steps[1..]);
    }
  }

  /** When the run makes its first store into the slot, a slot is free. */
  ghost predicate RoomAtFirstStore(disk: F.Disk, s: Rings, steps: seq<Step>)
    requires RingSizes(s) && Legal(disk, s, steps)
    decreases |steps|
  {
    steps != []
    && if steps[0].WriteField? then SqCount(s) < |s.sqes|
       else RoomAtFirstStore(disk, Apply(disk, s, steps[0]), steps[1..])
  }

  /** The tail is read and nothing is stored yet. */
  ghost predicate BeforeStores(disk: F.Disk, s: Rings) {
    Intact(disk, s) && s.pc.Filling? && s.pc.fields == 0
  }

  /** What the kernel does before the first store is of no consequence, but it can make room. */
  lemma {:induction false} RoomyRestAppends(disk: F.Disk, s: Rings, steps: seq<Step>)
    requires BeforeStores(disk, s) && Rest(disk, s, steps) && RoomAtFirstStore(disk, s, steps)
    ensures Appends(disk, s, steps, RequestOf(s))
    decreases |steps|
  {
    if steps[0].WriteField? {
      RestAppends(disk, s, steps);
    } else if |steps| > 1 {
      RestTail(disk, s, steps);
      KernelKeepsTaken(disk, s, steps[0]);
      RoomyRestAppends(disk, Apply(disk, s, steps[0]), steps[1..]);
    }
  }

  /** Room when the tail is read is room at the first store. */
  lemma {:induction false} RoomStays(disk: F.Disk, s: Rings, steps: seq<Step>)
    requires BeforeStores(disk, s) && Rest(disk, s, steps) && SqCount(s) < |s.sqes|
    ensures RoomAtFirstStore(disk, s, steps)
    decreases |steps|
  {
    if !steps[0].WriteField? && |steps| > 1 {
      RestTail(disk, s, steps);
      KernelKeepsTaken(disk, s, steps[0]);
      RoomStays(disk, Apply(disk, s, steps[0]), steps[1..]);
    }
  }

  // ---------------------------------------------------------------- the kernel standing still

  /** An SQE after the first `k` of submit_to_sq's stores. */
  function StoredUpTo(sqe: F.Sqe, r: F.Sqe, k: nat): F.Sqe {
    if k == 0 then sqe else StoreField(StoredUpTo(sqe, r, k - 1), k - 1, r)
  }

  lemma {:induction false} StoredFields(sqe: F.Sqe, r: F.Sqe, k: nat)
    requires k <= SQE_FIELDS
    ensures PartlyFilled(StoredUpTo(sqe, r, k), r, k)
    ensures k < SQE_FIELDS ==> StoredUpTo(sqe, r, k).userData == sqe.userData
  {
    if k > 0 {
      StoredFields(sqe, r, k - 1);
    }
  }

  function Fields(k: nat): (steps: seq<Step>)
    ensures |steps| == k && forall i :: 0 <= i < k ==> steps[i].WriteField?
  {
    if k == 0 then [] else Fields(k - 1) + [WriteField]
  }

  function AfterFields(s: Rings, k: nat): Rings
    requires s.pc.Filling? && s.pc.fi in s.heap && |s.sqes| > 0
  {
    var slot := Slot(s.pc.tail, |s.sqes|);
    s.(sqes := s.sqes[slot := StoredUpTo(s.sqes[slot], RequestOf(s), k)], pc := s.pc.(fields := k))
  }

  lemma NextField(disk: F.Disk, s: Rings, k: nat)
    requires RingSizes(s) && k < SQE_FIELDS && s.pc.Filling? && s.pc.fi in s.heap
    ensures Enabled(disk, AfterFields(s, k), WriteField)
    ensures Apply(disk, AfterFields(s, k), WriteField) == AfterFields(s, k + 1)
  {
    var slot := Slot(s.pc.tail, |s.sqes|);
    var stored := StoredUpTo(s.sqes[slot], RequestOf(s), k + 1);
    assert s.sqes[slot := StoredUpTo(s.sqes[slot], RequestOf(s), k)][slot := stored] == s.sqes[slot := stored];
  }

  lemma {:induction false} FieldsRun(disk: F.Disk, from: Rings, run: seq<Step>, s: Rings, k: nat)
    requires Leads(disk, from, run, s) && RingSizes(s) && k <= SQE_FIELDS
    requires s.pc.Filling? && s.pc.fields == 0 && s.pc.fi in s.heap
    ensures Leads(disk, from, run + Fields(k), AfterFields(s, k))
  {
    if k == 0 {
      assert run + Fields(0) == run && AfterFields(s, 0) == s;
    } else {
      FieldsRun(disk, from, run, s, k - 1);
      NextField(disk, s, k - 1);
      assert run + Fields(k) == (run + Fields(k - 1)) + [WriteField];
      Extend(disk, from, run + Fields(k - 1), AfterFields(s, k - 1), WriteField);
    }
  }

  /** All the stores of submit_to_sq at once. */
  function Submitted(s: Rings, r: F.Sqe): Rings
    requires |s.sqes| > 0 && |s.indices| == |s.sqes|
  {
    var index := Slot(s.sqTail, |s.sqes|);
    s.(sqes := s.sqes[index := r], indices := s.indices[index := index], sqTail := Wrap32(s.sqTail + 1))
  }

  function QuietRest(): seq<Step> {
    Fields(SQE_FIELDS) + [WriteIndex, PublishTail]
  }

  /** The state in which the kernel, standing still, finds the rings after a submission. */
  ghost function Published(s: Rings): Rings
    requires RingSizes(s) && s.pc.Filling? && s.pc.fi in s.heap
  {
    Submitted(s, RequestOf(s)).(pc := Idle, log := s.log.(submitted := s.log.submitted + [RequestOf(s)]))
  }

  lemma LastTwoStores(disk: F.Disk, s: Rings)
    requires RingSizes(s) && s.pc.Filling? && s.pc.fi in s.heap && s.pc.tail == s.sqTail
    ensures var filled := AfterFields(s, SQE_FIELDS);
            && Enabled(disk, filled, WriteIndex)
            && Enabled(disk, Apply(disk, filled, WriteIndex), PublishTail)
            && Apply(disk, Apply(disk, filled, WriteIndex), PublishTail) == Published(s)
  {
    StoredFields(s.sqes[Slot(s.sqTail, |s.sqes|)], RequestOf(s), SQE_FIELDS);
    WrapCases(s.sqTail + 1);
  }

  /** `Submitted` is the interleaving in which the kernel makes no move. */
  lemma QuietRun(disk: F.Disk, from: Rings, run: seq<Step>, s: Rings)
    requires Leads(disk, from, run, s) && RingSizes(s)
    requires s.pc.Filling? && s.pc.fields == 0 && s.pc.fi in s.heap && s.pc.tail == s.sqTail
    ensures Leads(disk, from, run + QuietRest(), Published(s))
  {
    var filled := AfterFields(s, SQE_FIELDS);
    FieldsRun(disk, from, run, s, SQE_FIELDS);
    LastTwoStores(disk, s);
    Extend(disk, from, run + Fields(SQE_FIELDS), filled, WriteIndex);
    Extend(disk, from, run + Fields(SQE_FIELDS) + [WriteIndex], Apply(disk, filled, WriteIndex), PublishTail);
    assert run + QuietRest() == run + Fields(SQE_FIELDS) + [WriteIndex] + [PublishTail];
  }

  lemma SubmitCounts(s: Rings, r: F.Sqe)
    requires RingSizes(s) && SqCount(s) <= |s.sqes|
    ensures RingSizes(Submitted(s, r)) && SqCount(Submitted(s, r)) == SqCount(s) + 1
    ensures Slot(s.sqTail, |s.sqes|) == SlotAt(s.sqHead, SqCount(s), |s.sqes|)
  {
    TailAdvances(s.sqHead, s.sqTail, |s.sqes|);
  }

  lemma SubmitFits(s: Rings, r: F.Sqe)
    requires RingSizes(s) && SqCount(s) < |s.sqes| && Identity(s.indices, s.sqHead, SqCount(s))
    ensures RingSizes(Submitted(s, r)) && SqQueue(Submitted(s, r)) == SqQueue(s) + [r]
  {
    SubmitCounts(s, r);
    SubmitAppends(s.indices, s.sqes, s.sqHead, SqCount(s), r);
  }

  /** With no slot free, a request for a slot further down the queue is replaced. */
  lemma SubmitOverwrites(s: Rings, r: F.Sqe)
    requires RingSizes(s) && SqCount(s) >= |s.sqes| && Identity(s.indices, s.sqHead, SqCount(s)) && r !in SqQueue(s)
    ensures RingSizes(Submitted(s, r)) && SqQueue(Submitted(s, r)) != SqQueue(s) + [r]
  {
    var e, j := Submitted(s, r), SqCount(s) - |s.sqes|;
    if SqCount(e) == SqCount(s) + 1 {
      SlotBehind(s.sqHead, s.sqTail, |s.sqes|);
      assert SqQueue(e)[j] == r;
      assert (SqQueue(s) + [r])[j] == SqQueue(s)[j];
    }
  }

  /** Submitting adds the request behind the waiting ones exactly when the ring is not full. */
  lemma SubmitAppendsIff(s: Rings, r: F.Sqe)
    requires RingSizes(s) && Identity(s.indices, s.sqHead, SqCount(s)) && r !in SqQueue(s)
    ensures RingSizes(Submitted(s, r))
    ensures SqQueue(Submitted(s, r)) == SqQueue(s) + [r] <==> SqCount(s) < |s.sqes|
  {
    if SqCount(s) < |s.sqes| {
      SubmitFits(s, r);
    } else {
      SubmitOverwrites(s, r);
    }
  }

  lemma SubmitAppends(indices: seq<nat>, sqes: seq<F.Sqe>, head: u32, n: nat, r: F.Sqe)
    requires |indices| == |sqes| && IsRingSize(|sqes|) && n < |sqes| && Identity(indices, head, n)
    ensures var slot := SlotAt(head, n, |sqes|);
            Resolve(indices[slot := slot], sqes[slot := r], head, n + 1) == Resolve(indices, sqes, head, n) + [r]
  {
    var slot := SlotAt(head, n, |sqes|);
    var indices', sqes' := indices[slot := slot], sqes[slot := r];
    assert Identity(indices', head, n);
    ResolveFill(indices, sqes, head, n, r);
    ResolveIsWindow(indices, sqes', head, n);
    ResolveIsWindow(indices', sqes', head, n);
    ResolvePush(indices', sqes', head, n);
  }

  /** The full ring in the small: of two requests submitted to a one-entry ring, the first is lost. */
  lemma FullRingLosesRequest(s: Rings, a: F.Sqe, b: F.Sqe)
    requires RingSizes(s) && |s.sqes| == 1 && SqCount(s) == 0
    ensures var s' := Submitted(Submitted(s, a), b);
            RingSizes(s') && SqQueue(s') == [b, b]
  {
    var s1 := Submitted(s, a);
    SubmitCounts(s, a);
    SubmitCounts(s1, b);
    OnlySlot(Submitted(s1, b));
  }

  lemma OnlySlot(s: Rings)
    requires RingSizes(s) && |s.sqes| == 1 && s.indices == [0] && SqCount(s) == 2
    ensures SqQueue(s) == [s.sqes[0], s.sqes[0]]
  {
    assert SlotAt(s.sqHead, 0, 1) == 0 && SlotAt(s.sqHead, 1, 1) == 0;
  }

  // ---------------------------------------------------------------- without a free slot

  /** The kernel consuming after `k` of the stores into a full ring takes a mixture of two requests. */
  lemma HalfFilled(disk: F.Disk, s: Rings, k: nat)
    requires RingSizes(s) && SqCount(s) == |s.sqes| && Identity(s.indices, s.sqHead, SqCount(s)) && k <= SQE_FIELDS
    requires s.pc.Filling? && s.pc.fields == 0 && s.pc.fi in s.heap && s.pc.tail == s.sqTail
    ensures var run := Fields(k) + [KernelConsume];
            && Legal(disk, s, run) && SqQueue(s) != []
            && Exec(disk, s, run).log.consumed == s.log.consumed + [StoredUpTo(SqQueue(s)[0], RequestOf(s), k)]
  {
    var filled := AfterFields(s, k);
    FullSlot(s);
    FieldsRun(disk, s, [], s, k);
    assert [] + Fields(k) == Fields(k);
    Extend(disk, s, Fields(k), filled, KernelConsume);
  }

  /** In a full ring the slot at the tail is the oldest request's. */
  lemma FullSlot(s: Rings)
    requires RingSizes(s) && SqCount(s) == |s.sqes| && Identity(s.indices, s.sqHead, SqCount(s))
    ensures s.sqHead != s.sqTail && SqQueue(s) != []
    ensures var slot := Slot(s.sqTail, |s.sqes|);
            slot == Slot(s.sqHead, |s.sqes|) == s.indices[slot] && SqQueue(s)[0] == s.sqes[slot]
  {
    LagFacts(s.sqHead, s.sqTail);
    FullRingSlot(s.sqHead, s.sqTail, |s.sqes|);
  }

  /** A mixture of requests for different files is neither of them. */
  lemma MixtureIsNeither(sqe: F.Sqe, r: F.Sqe, k: nat)
    requires 0 < k < SQE_FIELDS && sqe.fd != r.fd && sqe.userData != r.userData
    ensures StoredUpTo(sqe, r, k) != sqe && StoredUpTo(sqe, r, k) != r
  {
    StoredFields(sqe, r, k);
  }

  /** No request in the kernel's view is the one about to be stored. */
  lemma OwnRequestIsNew(disk: F.Disk, s: Rings)
    requires BeforeStores(disk, s)
    ensures RequestOf(s) !in SqQueue(s)
  {
    NamedIsIdentity(s);
    forall i | 0 <= i < |SqQueue(s)|
      ensures SqQueue(s)[i] != RequestOf(s)
    {
      assert SqQueue(s)[i] == s.sqes[SlotAt(s.sqHead, i, |s.sqes|)];
    }
  }

  /** With no slot free, the run in which the kernel stands still loses a request. */
  lemma QuietRestOverwrites(disk: F.Disk, from: Rings, run: seq<Step>, s: Rings)
    requires Leads(disk, from, run, s) && BeforeStores(disk, s) && SqCount(s) >= |s.sqes| && Taken(from) == Taken(s)
    ensures Legal(disk, from, run + QuietRest()) && !Appends(disk, from, run + QuietRest(), RequestOf(s))
  {
    QuietRun(disk, from, run, s);
    OwnRequestIsNew(disk, s);
    NamedIsIdentity(s);
    SubmitOverwrites(s, RequestOf(s));
    TakenDiffers(s, Published(s), RequestOf(s));
  }

  lemma TakenDiffers(s: Rings, e: Rings, r: F.Sqe)
    requires RingSizes(s) && RingSizes(e) && e.log.consumed == s.log.consumed && SqQueue(e) != SqQueue(s) + [r]
    ensures Taken(e) != Taken(s) + [r]
  {
    var n := |s.log.consumed|;
    assert Taken(e)[n..] == SqQueue(e);
    assert (Taken(s) + [r])[n..] == SqQueue(s) + [r];
  }

  lemma QuietRestIsRest(disk: F.Disk, s: Rings)
    requires RingSizes(s) && s.pc.Filling? && s.pc.fields == 0 && s.pc.fi in s.heap && s.pc.tail == s.sqTail
    ensures Rest(disk, s, QuietRest()) && QuietRest()[0].WriteField?
  {
    QuietRun(disk, s, [], s);
    assert [] + QuietRest() == QuietRest();
  }

  // ---------------------------------------------------------------- exactly when

  /**
   From the moment before the first store: every interleaving of the stores with the kernel appends exactly the own
   request if and only if a slot is free then.
   */
  lemma StoresAppendIff(disk: F.Disk, s: Rings)
    requires BeforeStores(disk, s)
    ensures (forall steps: seq<Step> :: Rest(disk, s, steps) && steps[0].WriteField? ==>
               Appends(disk, s, steps, RequestOf(s)))
       <==> SqCount(s) < |s.sqes|
  {
    if SqCount(s) < |s.sqes| {
      forall steps: seq<Step> | Rest(disk, s, steps) && steps[0].WriteField?
        ensures Appends(disk, s, steps, RequestOf(s))
      {
        RestAppends(disk, s, steps);
      }
    } else {
      QuietRestIsRest(disk, s);
      assert [] + QuietRest() == QuietRest();
      QuietRestOverwrites(disk, s, [], s);
    }
  }

  /**
   From the moment the tail is read: every interleaving of the submission with the kernel appends exactly the own
   request if and only if a slot is free then.
   */
  lemma SubmissionAppendsIff(disk: F.Disk, s: Rings, begin: Step)
    requires Intact(disk, s) && begin.BeginSubmit? && Enabled(disk, s, begin)
    ensures (forall steps: seq<Step> :: Whole(disk, s, begin, steps) ==>
               Appends(disk, s, steps, RequestOf(Apply(disk, s, begin))))
       <==> SqCount(s) < |s.sqes|
  {
    if SqCount(s) < |s.sqes| {
      forall steps: seq<Step> | Whole(disk, s, begin, steps)
        ensures Appends(disk, s, steps, RequestOf(Apply(disk, s, begin)))
      {
        WholeAppends(disk, s, begin, steps);
      }
    } else {
      QuietWhole(disk, s, begin);
      BeginKeeps(disk, s, begin);
      QuietRestOverwrites(disk, s, [begin], Apply(disk, s, begin));
    }
  }

  lemma BeginKeeps(disk: F.Disk, s: Rings, begin: Step)
    requires Intact(disk, s) && begin.BeginSubmit? && Enabled(disk, s, begin)
    ensures var s1 := Apply(disk, s, begin);
            BeforeStores(disk, s1) && Taken(s1) == Taken(s) && SqCount(s1) == SqCount(s)
  {
    StepKeepsIntact(disk, s, begin);
    assert SqQueue(Apply(disk, s, begin)) == SqQueue(s);
  }

  /** Whatever came before it, a submission with room at its first store appends its own request. */
  lemma WholeAppends(disk: F.Disk, s: Rings, begin: Step, steps: seq<Step>)
    requires Intact(disk, s) && begin.BeginSubmit? && Enabled(disk, s, begin) && Whole(disk, s, begin, steps)
    ensures SqCount(s) < |s.sqes| ==> RoomAtFirstStore(disk, s, steps)
    ensures RoomAtFirstStore(disk, s, steps) ==> Appends(disk, s, steps, RequestOf(Apply(disk, s, begin)))
  {
    var s1 := Apply(disk, s, begin);
    BeginKeeps(disk, s, begin);
    if SqCount(s) < |s.sqes| {
      RoomStays(disk, s1, steps[1..]);
    }
    if RoomAtFirstStore(disk, s, steps) {
      RoomyRestAppends(disk, s1, steps[1..]);
    }
  }

  lemma QuietWhole(disk: F.Disk, s: Rings, begin: Step)
    requires RingSizes(s) && begin.BeginSubmit? && Enabled(disk, s, begin)
    ensures Whole(disk, s, begin, [begin] + QuietRest()) && Leads(disk, s, [begin], Apply(disk, s, begin))
  {
    QuietRestIsRest(disk, Apply(disk, s, begin));
    assert ([begin] + QuietRest())[1..] == QuietRest();
    assert [begin][1..] == [];
  }

  // ---------------------------------------------------------------- as part of a run

  /** The steps from the read of the tail to the store to it, out of a longer run. */
  lemma IsWhole(disk: F.Disk, s: Rings, begin: Step, steps: seq<Step>)
    requires RingSizes(s) && Legal(disk, s, steps) && |steps| >= 2 && steps[0] == begin
    requires steps[|steps| - 1].PublishTail? && forall i :: 1 <= i < |steps| - 1 ==> InBetween(steps[i])
    ensures Whole(disk, s, begin, steps)
  {
    assert forall i :: 0 <= i < |steps[1..]| ==> steps[1..][i] == steps[i + 1];
  }

  lemma {:induction false} RestIsCareful(disk: F.Disk, s: Rings, steps: seq<Step>)
    requires Rest(disk, s, steps) && (s.pc.Publishing? || (s.pc.Filling? && s.pc.fields > 0))
    ensures Careful(disk, s, steps)
    decreases |steps|
  {
    if |steps| > 1 {
      RestTail(disk, s, steps);
      RestIsCareful(disk, Apply(disk, s, steps[0]), steps[1..]);
    } else {
      assert steps[1..] == [];
    }
  }

  lemma {:induction false} RestCarefulIff(disk: F.Disk, s: Rings, steps: seq<Step>)
    requires Rest(disk, s, steps) && s.pc.Filling? && s.pc.fields == 0
    ensures Careful(disk, s, steps) <==> RoomAtFirstStore(disk, s, steps)
    decreases |steps|
  {
    if |steps| > 1 {
      RestTail(disk, s, steps);
      if steps[0].WriteField? {
        RestIsCareful(disk, Apply(disk, s, steps[0]), steps[1..]);
      } else {
        RestCarefulIff(disk, Apply(disk, s, steps[0]), steps[1..]);
      }
    }
  }

  /** A submission keeps a run careful exactly when it finds room at its first store. */
  lemma WholeCarefulIff(disk: F.Disk, s: Rings, begin: Step, steps: seq<Step>)
    requires begin.BeginSubmit? && RingSizes(s) && Enabled(disk, s, begin) && Whole(disk, s, begin, steps)
    ensures Careful(disk, s, steps) <==> RoomAtFirstStore(disk, s, steps)
  {
    RestCarefulIff(disk, Apply(disk, s, begin), steps[1..]);
  }

  lemma PublishCounts(s: Rings)
    requires RingSizes(s)
    ensures SqCount(s.(sqTail := Wrap32(s.sqTail + 1))) <= SqCount(s) + 1
  {
    LagFacts(s.sqHead, s.sqTail);
  }

  lemma StepCountsAtMost(disk: F.Disk, s: Rings, step: Step)
    requires RingSizes(s) && SlotsNamed(s) && InBetween(step) && Enabled(disk, s, step)
    ensures SqCount(Apply(disk, s, step)) <= SqCount(s)
  {
    if IsKernel(step) {
      ReapingKeepsCount(disk, s, step);
    }
  }

  lemma {:induction false} RestCounts(disk: F.Disk, s: Rings, steps: seq<Step>)
    requires Intact(disk, s) && Rest(disk, s, steps)
    ensures SqCount(Exec(disk, s, steps)) <= SqCount(s) + 1
    decreases |steps|
  {
    if |steps| == 1 {
      RestLast(disk, s, steps);
      WrapCases(s.sqTail + 1);
      PublishCounts(s);
    } else {
      RestTail(disk, s, steps);
      StepKeepsIntact(disk, s, steps[0]);
      StepCountsAtMost(disk, s, steps[0]);
      RestCounts(disk, Apply(disk, s, steps[0]), steps[1..]);
    }
  }

  /**
   What a submission that leads from `s` to `e` by `steps` amounts to: if a slot is free at its first store, as it is if
   one is free when the tail is read, the kernel sees what it saw before and then `r`.
   */
  ghost predicate Amounts(disk: F.Disk, s: Rings, begin: Step, steps: seq<Step>, e: Rings, r: F.Sqe) {
    && Whole(disk, s, begin, steps) && Leads(disk, s, steps, e) && RingSizes(e) && SqCount(e) <= SqCount(s) + 1
    && (SqCount(s) < |s.sqes| ==> RoomAtFirstStore(disk, s, steps))
    && (RoomAtFirstStore(disk, s, steps) ==> Taken(e) == Taken(s) + [r])
  }

  /** From trace `t0` to `t` there has been one submission, and moves of the kernel. */
  ghost predicate OnlySubmission(t0: seq<Step>, begin: Step, t: seq<Step>) {
    |t0| + 2 <= |t| && OnlyBetween(t0 + [begin], t[..|t| - 1]) && t[|t| - 1].PublishTail?
  }

  lemma SubmissionSteps(t0: seq<Step>, begin: Step, t: seq<Step>)
    requires OnlySubmission(t0, begin, t)
    ensures t0 <= t && t == t0 + t[|t0|..]
    ensures var steps := t[|t0|..];
            && |steps| >= 2 && steps[0] == begin && steps[|steps| - 1].PublishTail?
            && forall i :: 1 <= i < |steps| - 1 ==> InBetween(steps[i])
  {
    assert t[..|t| - 1][|t0|] == (t0 + [begin])[|t0|];
    assert t[..|t0|] == (t0 + [begin])[..|t0|];
  }

  lemma OwnRequest(disk: F.Disk, s: Rings, begin: Step, info: F.FileInfo)
    requires RingSizes(s) && begin.BeginSubmit? && Enabled(disk, s, begin)
    requires info.fd == begin.fd && info.fileSz == |disk[begin.fd]|
    ensures F.RequestFor(begin.fi, info) == RequestOf(Apply(disk, s, begin))
  {
  }

  /** The submission that ends a run. */
  lemma LastSubmission(disk: F.Disk, start: Rings, t0: seq<Step>, s: Rings, begin: Step, t: seq<Step>, e: Rings,
                       r: F.Sqe)
    requires Reached(disk, start, t0, s) && Reached(disk, start, t, e) && OnlySubmission(t0, begin, t)
    requires begin.BeginSubmit? && Enabled(disk, s, begin) && r == RequestOf(Apply(disk, s, begin))
    ensures t0 <= t && Amounts(disk, s, begin, t[|t0|..], e, r)
    ensures Careful(disk, start, t) <==> Careful(disk, start, t0) && RoomAtFirstStore(disk, s, t[|t0|..])
  {
    var steps := t[|t0|..];
    SubmissionSteps(t0, begin, t);
    RunSplit(disk, start, t0, steps);
    ReachedIsIntact(disk, start, t0, s);
    IsWhole(disk, s, begin, steps);
    WholeAppends(disk, s, begin, steps);
    WholeCarefulIff(disk, s, begin, steps);
    BeginKeeps(disk, s, begin);
    RestCounts(disk, Apply(disk, s, begin), steps[1..]);
  }
}
