/** Whole runs of the rings: that they refine the queues, what they deliver, and how the counters move. */
module RingRuns {
  import opened Words
  import opened Bytes
  import opened Ring
  import F = Fifo

  ghost predicate Legal(disk: F.Disk, s: Rings, steps: seq<Step>)
    requires RingSizes(s)
    decreases |steps|
  {
    steps == [] || (Enabled(disk, s, steps[0]) && Legal(disk, Apply(disk, s, steps[0]), steps[1..]))
  }

  ghost function Exec(disk: F.Disk, s: Rings, steps: seq<Step>): (s': Rings)
    requires RingSizes(s) && Legal(disk, s, steps)
    ensures RingSizes(s')
    decreases |steps|
  {
    if steps == [] then s else Exec(disk, Apply(disk, s, steps[0]), steps[1..])
  }

  /** A run in which every submission finds a free slot. */
  ghost predicate Careful(disk: F.Disk, s: Rings, steps: seq<Step>)
    requires RingSizes(s) && Legal(disk, s, steps)
    decreases |steps|
  {
    steps == [] || (Room(s, steps[0]) && Careful(disk, Apply(disk, s, steps[0]), steps[1..]))
  }

  /** Empty rings; the counters may start anywhere and the slots hold anything. */
  ghost predicate IsInit(s: Rings) {
    && RingSizes(s)
    && s.sqHead == s.sqTail && s.cqHead == s.cqTail
    && s.pc.Idle? && s.inflight == [] && s.heap == map[]
    && s.log == F.History([], [], [], [], map[])
  }

  lemma InitGood(disk: F.Disk, s: Rings)
    requires IsInit(s)
    ensures Good(disk, s)
  {
  }

  ghost predicate FifoLegal(disk: F.Disk, q: F.Queues, events: seq<F.Event>)
    decreases |events|
  {
    events == [] || (F.Enabled(disk, q, events[0]) && FifoLegal(disk, F.Apply(disk, q, events[0]), events[1..]))
  }

  ghost function FifoExec(disk: F.Disk, q: F.Queues, events: seq<F.Event>): F.Queues
    requires FifoLegal(disk, q, events)
    decreases |events|
  {
    if events == [] then q else FifoExec(disk, F.Apply(disk, q, events[0]), events[1..])
  }

  /** A careful run of the 32-bit rings is a run of the unbounded queues. */
  lemma {:induction false} RunRefines(disk: F.Disk, s: Rings, steps: seq<Step>) returns (events: seq<F.Event>)
    requires Good(disk, s) && Legal(disk, s, steps) && Careful(disk, s, steps)
    ensures Good(disk, Exec(disk, s, steps))
    ensures |events| == |steps| && FifoLegal(disk, Abs(s), events)
    ensures FifoExec(disk, Abs(s), events) == Abs(Exec(disk, s, steps))
    decreases |steps|
  {
    if steps == [] {
      events := [];
    } else {
      StepRefines(disk, s, steps[0]);
      var rest := RunRefines(disk, Apply(disk, s, steps[0]), steps[1..]);
      events := [EventOf(s, steps[0])] + rest;
      assert events[1..] == rest;
    }
  }

  /**
   Over every interleaving from empty rings whose submissions find free slots: requests are consumed in submission
   order, each a read of its whole file; submitted requests are exactly those waiting, in flight, completed and reaped;
   none is reaped twice, and each completion printed the bytes of the file it was submitted for.
   */
  lemma EveryRun(disk: F.Disk, s0: Rings, steps: seq<Step>)
    requires IsInit(s0) && Legal(disk, s0, steps) && Careful(disk, s0, steps)
    ensures var s := Exec(disk, s0, steps);
            && s.log.submitted == s.log.consumed + SqQueue(s)
            && s.log.posted == F.ReapedCqes(s.log.reaped) + CqQueue(s)
            && multiset(F.SqeIds(s.log.submitted))
               == multiset(F.SqeIds(SqQueue(s))) + multiset(F.SqeIds(s.inflight))
                  + multiset(F.CqeIds(CqQueue(s))) + multiset(F.CqeIds(F.ReapedCqes(s.log.reaped)))
            && F.NoRepeats(F.CqeIds(F.ReapedCqes(s.log.reaped)))
            && (forall i :: 0 <= i < |s.log.consumed| ==>
                  && s.log.consumed[i].userData in s.heap
                  && F.AsksForFile(s.log.consumed[i], s.log.consumed[i].userData, s.heap[s.log.consumed[i].userData]))
            && F.ReapedOk(disk, s.heap, s.log.memory, s.log.reaped)
  {
    InitGood(disk, s0);
    var events := RunRefines(disk, s0, steps);
    var s := Exec(disk, s0, steps);
    var q := Abs(s);
    F.SqeIdsAppend(s.log.consumed, q.sq);
    F.CqeIdsAppend(F.ReapedCqes(s.log.reaped), q.cq);
    forall x
      ensures multiset(F.CqeIds(F.ReapedCqes(s.log.reaped)))[x] <= 1
    {
      F.OnePlace(q, x);
    }
    F.CountNoRepeats(F.CqeIds(F.ReapedCqes(s.log.reaped)));
    forall i | 0 <= i < |s.log.consumed|
      ensures s.log.consumed[i].userData in s.heap
      ensures F.AsksForFile(s.log.consumed[i], s.log.consumed[i].userData, s.heap[s.log.consumed[i].userData])
    {
      assert s.log.consumed[i] == s.log.submitted[i];
      F.RequestAsksForFile(disk, s.heap, s.log.consumed[i].userData);
    }
  }

  /** A run in two parts. */
  lemma {:induction false} RunSplit(disk: F.Disk, s: Rings, a: seq<Step>, b: seq<Step>)
    requires RingSizes(s) && Legal(disk, s, a + b)
    ensures Legal(disk, s, a) && Legal(disk, Exec(disk, s, a), b)
    ensures Exec(disk, s, a + b) == Exec(disk, Exec(disk, s, a), b)
    ensures Careful(disk, s, a + b) <==> Careful(disk, s, a) && Careful(disk, Exec(disk, s, a), b)
    decreases |a|
  {
    if a == [] {
      assert a + b == b;
    } else {
      assert (a + b)[1..] == a[1..] + b;
      RunSplit(disk, Apply(disk, s, a[0]), a[1..], b);
    }
  }

  /** `s` is where `run` leads from the empty rings `start`. */
  ghost predicate Reached(disk: F.Disk, start: Rings, run: seq<Step>, s: Rings) {
    IsInit(start) && RingSizes(s) && Leads(disk, start, run, s)
  }

  ghost predicate Leads(disk: F.Disk, from: Rings, run: seq<Step>, s: Rings) {
    RingSizes(from) && Legal(disk, from, run) && Exec(disk, from, run) == s
  }

  lemma ReachedIsGood(disk: F.Disk, start: Rings, run: seq<Step>, s: Rings)
    requires Reached(disk, start, run, s) && Careful(disk, start, run)
    ensures Good(disk, s)
  {
    InitGood(disk, start);
    var _ := RunRefines(disk, start, run);
  }

  /** A run can be extended by a step that is enabled where it leads. */
  lemma {:induction false} Extend(disk: F.Disk, from: Rings, run: seq<Step>, s: Rings, step: Step)
    requires Leads(disk, from, run, s) && RingSizes(s) && Enabled(disk, s, step)
    ensures Leads(disk, from, run + [step], Apply(disk, s, step))
    ensures Careful(disk, from, run) && Room(s, step) ==> Careful(disk, from, run + [step])
    decreases |run|
  {
    if run == [] {
      assert run + [step] == [step] && [step][1..] == [];
    } else {
      Extend(disk, Apply(disk, from, run[0]), run[1..], s, step);
      assert (run + [step])[0] == run[0] && (run + [step])[1..] == run[1..] + [step];
    }
  }

  // ---------------------------------------------------------------- counters

  /**
   Over every run the completion ring's counters are the history's: the reaping head is advanced once for each
   completion reaped and the tail once for each one posted.
   */
  lemma {:induction false} CountersCount(disk: F.Disk, s: Rings, steps: seq<Step>)
    requires RingSizes(s) && Legal(disk, s, steps)
    ensures Counted(s, Exec(disk, s, steps))
    decreases |steps|
  {
    if steps != [] {
      var s1 := Apply(disk, s, steps[0]);
      StepCounts(disk, s, steps[0]);
      CountersCount(disk, s1, steps[1..]);
      CountedTwice(s, s1, Exec(disk, s1, steps[1..]));
    }
  }

  ghost predicate Counted(s: Rings, e: Rings) {
    && s.log.reaped <= e.log.reaped && s.log.posted <= e.log.posted
    && ReapHead(e) == Advance(ReapHead(s), |e.log.reaped| - |s.log.reaped|)
    && e.cqTail == Advance(s.cqTail, |e.log.posted| - |s.log.posted|)
  }

  lemma StepCounts(disk: F.Disk, s: Rings, step: Step)
    requires RingSizes(s) && Enabled(disk, s, step)
    ensures Counted(s, Apply(disk, s, step))
  {
    assert Advance(ReapHead(s), 1) == Wrap32(ReapHead(s) + 1);
    assert Advance(s.cqTail, 1) == Wrap32(s.cqTail + 1);
  }

  lemma CountedTwice(s: Rings, m: Rings, e: Rings)
    requires Counted(s, m) && Counted(m, e)
    ensures Counted(s, e)
  {
    AdvanceTwice(ReapHead(s), |m.log.reaped| - |s.log.reaped|, |e.log.reaped| - |m.log.reaped|);
    AdvanceTwice(s.cqTail, |m.log.posted| - |s.log.posted|, |e.log.posted| - |m.log.posted|);
  }

  // ---------------------------------------------------------------- corollaries

  function Stdout(reaped: seq<F.Reaped>): seq<byte> {
    if reaped == [] then [] else reaped[0].printed + Stdout(reaped[1..])
  }

  lemma {:induction false} StdoutSnoc(reaped: seq<F.Reaped>, r: F.Reaped)
    ensures Stdout(reaped + [r]) == Stdout(reaped) + r.printed
  {
    if reaped == [] {
      assert Stdout([r]) == r.printed + Stdout([]);
    } else {
      assert (reaped + [r])[1..] == reaped[1..] + [r];
      StdoutSnoc(reaped[1..], r);
    }
  }

  ghost function ContentsOf(disk: F.Disk, heap: F.Heap, memory: map<nat, seq<byte>>, reaped: seq<F.Reaped>): seq<byte>
    requires F.ReapedOk(disk, heap, memory, reaped)
  {
    if reaped == [] then [] else
      disk[heap[reaped[0].cqe.userData].fd] + ContentsOf(disk, heap, memory, reaped[1..])
  }

  /** The file_info's buffers held, when allocated, the bytes of the file that the readv did not bring. */
  ghost predicate HeldTheRest(disk: F.Disk, heap: F.Heap, memory: map<nat, seq<byte>>, r: F.Reaped)
    requires F.Delivers(disk, heap, memory, r.cqe, r.printed)
  {
    var n := if r.cqe.res < 0 then 0 else r.cqe.res;
    memory[r.cqe.userData][n..] == disk[heap[r.cqe.userData].fd][n..]
  }

  /**
   The output is the files themselves, in the order reaped, exactly when every read that failed or came back short
   found its file's missing bytes in the buffers. Complete reads always do.
   */
  lemma {:induction false} StdoutIsFilesIff(disk: F.Disk, heap: F.Heap, memory: map<nat, seq<byte>>,
                                            reaped: seq<F.Reaped>)
    requires F.ReapedOk(disk, heap, memory, reaped)
    ensures |Stdout(reaped)| == |ContentsOf(disk, heap, memory, reaped)|
    ensures Stdout(reaped) == ContentsOf(disk, heap, memory, reaped)
       <==> forall i :: 0 <= i < |reaped| ==> HeldTheRest(disk, heap, memory, reaped[i])
  {
    if reaped != [] {
      var r, rest := reaped[0], reaped[1..];
      var content := disk[heap[r.cqe.userData].fd];
      StdoutIsFilesIff(disk, heap, memory, rest);
      F.FilledIsFileIff(content, r.cqe.res, memory[r.cqe.userData]);
      BothEqualIff(r.printed, content, Stdout(rest), ContentsOf(disk, heap, memory, rest));
      assert forall i :: 0 <= i < |rest| ==> rest[i] == reaped[i + 1];
      assert forall i :: 1 <= i < |reaped| ==> reaped[i] == rest[i - 1];
    }
  }
}
