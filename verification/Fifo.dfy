/**
 The protocol of the submission and completion rings with the rings abstracted to unbounded queues:
 requests wait in `sq`, are in the kernel's hands in `inflight`, and their completions wait in `cq`.
 The remaining fields are the heap of file_infos and a history of the run.
 */
module Fifo {
  import opened Words
  import opened Bytes
  import opened Blocks

  const BLOCK_SZ: nat := 1024
  const IORING_OP_READV: int := 1

  datatype Sqe = Sqe(fd: int, flags: int, opcode: int, addr: nat, len: int, off: int, userData: nat)

  datatype Cqe = Cqe(userData: nat, res: int)

  /** A file_info, and the descriptor of the file it was allocated for. */
  datatype FileInfo = FileInfo(fd: int, fileSz: nat, iovecs: seq<Iovec<seq<byte>>>)

  /** A completion taken from the queue, and what was printed for it. */
  datatype Reaped = Reaped(cqe: Cqe, printed: seq<byte>)

  /** What each open descriptor reads as; files do not change during a run. */
  type Disk = map<int, seq<byte>>

  /** file_infos by address. */
  type Heap = map<nat, FileInfo>

  /** The run so far; `memory` is what each file_info's buffers held when it was allocated. */
  datatype History = History(
    submitted: seq<Sqe>, consumed: seq<Sqe>, posted: seq<Cqe>, reaped: seq<Reaped>, memory: map<nat, seq<byte>>)

  datatype Queues = Queues(sq: seq<Sqe>, inflight: seq<Sqe>, cq: seq<Cqe>, heap: Heap, log: History)

  datatype Event =
    | Silent
    | Allocate(fi: nat, fd: int, bufs: seq<seq<byte>>)
    | Enqueue(id: nat)
    | Consume
    | Complete(j: nat, res: int)
    | Reap

  function SqeIds(s: seq<Sqe>): seq<nat> {
    seq(|s|, i requires 0 <= i < |s| => s[i].userData)
  }

  function CqeIds(s: seq<Cqe>): seq<nat> {
    seq(|s|, i requires 0 <= i < |s| => s[i].userData)
  }

  function ReapedCqes(s: seq<Reaped>): seq<Cqe> {
    seq(|s|, i requires 0 <= i < |s| => s[i].cqe)
  }

  /** The readv request that submit_to_sq makes for the file_info at address `fi`. */
  function RequestFor(fi: nat, info: FileInfo): Sqe {
    Sqe(info.fd, 0, IORING_OP_READV, fi, BlockCount(info.fileSz, BLOCK_SZ), 0, fi)
  }

  /** The request asks for the whole file that `info` was allocated for, into all its iovecs, and names it. */
  predicate AsksForFile(sqe: Sqe, fi: nat, info: FileInfo) {
    && IsRead(sqe) && sqe.fd == info.fd && sqe.off == 0
    && sqe.addr == fi && sqe.len == |info.iovecs| == (info.fileSz + 1023) / 1024 && sqe.userData == fi
  }

  lemma RequestAsksForFile(disk: Disk, heap: Heap, fi: nat)
    requires HeapOk(disk, heap) && fi in heap
    ensures AsksForFile(RequestFor(fi, heap[fi]), fi, heap[fi])
  {
    SplitFacts(heap[fi].fileSz, BLOCK_SZ, heap[fi].iovecs);
  }

  /** The file_info that submit_to_sq builds for a file; the buffers come with arbitrary contents. */
  function NewFileInfo(disk: Disk, fd: int, bufs: seq<seq<byte>>): FileInfo
    requires CanAllocate(disk, fd, bufs)
  {
    FileInfo(fd, |disk[fd]|, IovecsFor(Lengths(|disk[fd]|, BLOCK_SZ), bufs))
  }

  ghost predicate CanAllocate(disk: Disk, fd: int, bufs: seq<seq<byte>>) {
    && fd in disk
    && |disk[fd]| < TWO_31
    && AllOfLength(bufs, BLOCK_SZ)
    && |bufs| == |Lengths(|disk[fd]|, BLOCK_SZ)|
  }

  /** The request is a readv without flags. */
  predicate IsRead(sqe: Sqe) {
    sqe.flags == 0 && sqe.opcode == IORING_OP_READV
  }

  /** A readv either fails or transfers some of the bytes asked for; a request for anything else fails. */
  predicate CanComplete(disk: Disk, heap: Heap, sqe: Sqe, res: int) {
    res >= 0 ==>
      && IsRead(sqe)
      && sqe.fd in disk
      && 0 <= sqe.off <= sqe.off + res <= |disk[sqe.fd]|
      && sqe.addr in heap
      && 0 <= sqe.len <= |heap[sqe.addr].iovecs|
      && Sound(heap[sqe.addr].iovecs[..sqe.len])
      && res <= |Gather(heap[sqe.addr].iovecs[..sqe.len])|
  }

  /** The kernel's transfer into the `len` iovecs at `addr`. */
  function KernelReadv(disk: Disk, heap: Heap, sqe: Sqe, res: int): Heap
    requires CanComplete(disk, heap, sqe, res)
  {
    if res < 0 then heap else
      var info := heap[sqe.addr];
      var data := disk[sqe.fd][sqe.off..sqe.off + res];
      heap[sqe.addr := info.(iovecs := Scatter(info.iovecs[..sqe.len], data) + info.iovecs[sqe.len..])]
  }

  /** What read_from_cq prints for a completion that carries address `fi`; it does not look at `res`. */
  function PrintOf(heap: Heap, fi: nat): seq<byte> {
    if fi in heap && Sound(heap[fi].iovecs) && 0 <= BlockCount(heap[fi].fileSz, BLOCK_SZ) <= |heap[fi].iovecs|
    then Printed(heap[fi].fileSz, BLOCK_SZ, heap[fi].iovecs)
    else []
  }

  /** What is recorded of a file_info's memory is what the blocks handed out for it hold, up to the file's size. */
  lemma MemoryIsHandedOut(disk: Disk, heap: Heap, fi: nat, fd: int, bufs: seq<seq<byte>>)
    requires CanAllocate(disk, fd, bufs)
    ensures |disk[fd]| <= |Flatten(bufs)|
    ensures PrintOf(heap[fi := NewFileInfo(disk, fd, bufs)], fi) == Flatten(bufs)[..|disk[fd]|]
  {
    FreshPrints(|disk[fd]|, BLOCK_SZ, bufs);
  }

  ghost predicate Enabled(disk: Disk, q: Queues, e: Event) {
    match e
    case Silent => true
    case Allocate(fi, fd, bufs) => fi !in q.heap && CanAllocate(disk, fd, bufs)
    case Enqueue(id) => id in q.heap && id !in SqeIds(q.log.submitted)
    case Consume => q.sq != []
    case Complete(j, res) => j < |q.inflight| && CanComplete(disk, q.heap, q.inflight[j], res)
    case Reap => q.cq != []
  }

  ghost function Apply(disk: Disk, q: Queues, e: Event): Queues
    requires Enabled(disk, q, e)
  {
    match e
    case Silent => q
    case Allocate(fi, fd, bufs) =>
      var heap := q.heap[fi := NewFileInfo(disk, fd, bufs)];
      q.(heap := heap, log := q.log.(memory := q.log.memory[fi := PrintOf(heap, fi)]))
    case Enqueue(id) =>
      var sqe := RequestFor(id, q.heap[id]);
      q.(sq := q.sq + [sqe], log := q.log.(submitted := q.log.submitted + [sqe]))
    case Consume =>
      q.(sq := q.sq[1..], inflight := q.inflight + [q.sq[0]], log := q.log.(consumed := q.log.consumed + [q.sq[0]]))
    case Complete(j, res) =>
      var sqe := q.inflight[j];
      var cqe := Cqe(sqe.userData, res);
      q.(inflight := q.inflight[..j] + q.inflight[j + 1..],
         cq := q.cq + [cqe],
         heap := KernelReadv(disk, q.heap, sqe, res),
         log := q.log.(posted := q.log.posted + [cqe]))
    case Reap =>
      q.(cq := q.cq[1..],
         log := q.log.(reaped := q.log.reaped + [Reaped(q.cq[0], PrintOf(q.heap, q.cq[0].userData))]))
  }

  ghost predicate NoRepeats(ids: seq<nat>) {
    forall i, j :: 0 <= i < j < |ids| ==> ids[i] != ids[j]
  }

  /** The bytes printed for a completion: the `res` bytes read, then what the memory held in place of the rest. */
  function Filled(content: seq<byte>, res: int, memory: seq<byte>): seq<byte>
    requires res <= |content| == |memory|
  {
    var n := if res < 0 then 0 else res;
    content[..n] + memory[n..]
  }

  /** What is printed is the file exactly when the memory held the bytes that were not read. */
  lemma FilledIsFileIff(content: seq<byte>, res: int, memory: seq<byte>)
    requires res <= |content| == |memory|
    ensures var n := if res < 0 then 0 else res;
            |Filled(content, res, memory)| == |content|
            && (Filled(content, res, memory) == content <==> memory[n..] == content[n..])
  {
    var n := if res < 0 then 0 else res;
    assert Filled(content, res, memory)[n..] == memory[n..];
    assert content == content[..n] + content[n..];
  }

  ghost predicate Delivers(disk: Disk, heap: Heap, memory: map<nat, seq<byte>>, cqe: Cqe, printed: seq<byte>) {
    && cqe.userData in heap && cqe.userData in memory
    && heap[cqe.userData].fd in disk
    && cqe.res <= |disk[heap[cqe.userData].fd]| == |memory[cqe.userData]|
    && printed == Filled(disk[heap[cqe.userData].fd], cqe.res, memory[cqe.userData])
  }

  /** file_infos stay the shape the splitting loop gave them. */
  ghost predicate HeapOk(disk: Disk, heap: Heap) {
    forall fi :: fi in heap ==>
      && heap[fi].fd in disk
      && heap[fi].fileSz == |disk[heap[fi].fd]|
      && IsSplit(heap[fi].fileSz, BLOCK_SZ, heap[fi].iovecs)
  }

  ghost predicate RequestsOk(heap: Heap, sqes: seq<Sqe>) {
    forall i :: 0 <= i < |sqes| ==>
      sqes[i].userData in heap && sqes[i] == RequestFor(sqes[i].userData, heap[sqes[i].userData])
  }

  ghost predicate PendingOk(disk: Disk, heap: Heap, memory: map<nat, seq<byte>>, cq: seq<Cqe>) {
    forall i :: 0 <= i < |cq| ==> Delivers(disk, heap, memory, cq[i], PrintOf(heap, cq[i].userData))
  }

  ghost predicate ReapedOk(disk: Disk, heap: Heap, memory: map<nat, seq<byte>>, reaped: seq<Reaped>) {
    forall i :: 0 <= i < |reaped| ==> Delivers(disk, heap, memory, reaped[i].cqe, reaped[i].printed)
  }

  /** Until its completion is posted, a file_info's buffers hold what they held when it was allocated. */
  ghost predicate Untouched(heap: Heap, memory: map<nat, seq<byte>>, posted: seq<Cqe>) {
    && heap.Keys == memory.Keys
    && forall fi :: fi in heap && multiset(CqeIds(posted))[fi] == 0 ==> PrintOf(heap, fi) == memory[fi]
  }

  /** First in, first out on both queues, and nothing lost, copied or made up in between. */
  ghost predicate Conserved(q: Queues) {
    && q.log.submitted == q.log.consumed + q.sq
    && multiset(SqeIds(q.log.consumed)) == multiset(SqeIds(q.inflight)) + multiset(CqeIds(q.log.posted))
    && q.log.posted == ReapedCqes(q.log.reaped) + q.cq
  }

  /** Every queue's entries are well-formed, and every completion delivers. */
  ghost predicate ContentsOk(disk: Disk, q: Queues) {
    && HeapOk(disk, q.heap)
    && RequestsOk(q.heap, q.log.submitted)
    && RequestsOk(q.heap, q.inflight)
    && Untouched(q.heap, q.log.memory, q.log.posted)
    && PendingOk(disk, q.heap, q.log.memory, q.cq)
    && ReapedOk(disk, q.heap, q.log.memory, q.log.reaped)
  }

  ghost predicate Inv(disk: Disk, q: Queues) {
    Conserved(q) && NoRepeats(SqeIds(q.log.submitted)) && ContentsOk(disk, q)
  }

  // ---------------------------------------------------------------- identifiers

  lemma {:induction false} NoRepeatsCount(ids: seq<nat>, x: nat)
    requires NoRepeats(ids)
    ensures multiset(ids)[x] <= 1
  {
    if ids != [] {
      var front, last := ids[..|ids| - 1], ids[|ids| - 1];
      assert ids == front + [last];
      NoRepeatsCount(front, x);
      assert last !in front;
    }
  }

  lemma {:induction false} CountNoRepeats(ids: seq<nat>)
    requires forall x :: multiset(ids)[x] <= 1
    ensures NoRepeats(ids)
  {
    forall i, j | 0 <= i < j < |ids|
      ensures ids[i] != ids[j]
    {
      var a, b := ids[..j], ids[j..];
      assert ids == a + b;
      assert a[i] in multiset(a) && b[0] in multiset(b);
      assert multiset(ids)[ids[i]] == multiset(a)[ids[i]] + multiset(b)[ids[i]];
    }
  }

  lemma SqeIdsAppend(a: seq<Sqe>, b: seq<Sqe>)
    ensures SqeIds(a + b) == SqeIds(a) + SqeIds(b)
  {
  }

  lemma CqeIdsAppend(a: seq<Cqe>, b: seq<Cqe>)
    ensures CqeIds(a + b) == CqeIds(a) + CqeIds(b)
  {
  }

  /** Each identifier has at most one place among sq, in flight and posted. */
  lemma OnePlace(q: Queues, x: nat)
    requires Conserved(q) && NoRepeats(SqeIds(q.log.submitted))
    ensures multiset(SqeIds(q.sq))[x] + multiset(SqeIds(q.inflight))[x] + multiset(CqeIds(q.log.posted))[x] <= 1
    ensures multiset(CqeIds(q.log.posted))[x]
         == multiset(CqeIds(ReapedCqes(q.log.reaped)))[x] + multiset(CqeIds(q.cq))[x]
  {
    SqeIdsAppend(q.log.consumed, q.sq);
    CqeIdsAppend(ReapedCqes(q.log.reaped), q.cq);
    NoRepeatsCount(SqeIds(q.log.submitted), x);
  }

  /** Every request is in one place. */
  lemma Counts(q: Queues)
    requires Conserved(q)
    ensures |q.log.submitted| == |q.sq| + |q.inflight| + |q.log.posted|
    ensures |q.log.posted| == |q.log.reaped| + |q.cq|
  {
    assert |multiset(SqeIds(q.log.consumed))| == |multiset(SqeIds(q.inflight))| + |multiset(CqeIds(q.log.posted))|;
  }

  // ---------------------------------------------------------------- preservation

  /** Completions deliver the same in any heap and memory that agree on what was allocated before. */
  lemma SameContents(disk: Disk, heap: Heap, heap': Heap, memory: map<nat, seq<byte>>, memory': map<nat, seq<byte>>,
                     cq: seq<Cqe>, reaped: seq<Reaped>)
    requires PendingOk(disk, heap, memory, cq) && ReapedOk(disk, heap, memory, reaped)
    requires forall fi :: fi in heap ==> fi in heap' && heap'[fi] == heap[fi]
    requires forall fi :: fi in heap && fi in memory ==> fi in memory' && memory'[fi] == memory[fi]
    ensures PendingOk(disk, heap', memory', cq) && ReapedOk(disk, heap', memory', reaped)
  {
    forall i | 0 <= i < |cq|
      ensures Delivers(disk, heap', memory', cq[i], PrintOf(heap', cq[i].userData))
    {
      assert Delivers(disk, heap, memory, cq[i], PrintOf(heap, cq[i].userData));
    }
    forall i | 0 <= i < |reaped|
      ensures Delivers(disk, heap', memory', reaped[i].cqe, reaped[i].printed)
    {
      assert Delivers(disk, heap, memory, reaped[i].cqe, reaped[i].printed);
    }
  }

  lemma AllocateHeapOk(disk: Disk, heap: Heap, fi: nat, fd: int, bufs: seq<seq<byte>>)
    requires HeapOk(disk, heap) && CanAllocate(disk, fd, bufs)
    ensures HeapOk(disk, heap[fi := NewFileInfo(disk, fd, bufs)])
  {
    assert IsSplit(|disk[fd]|, BLOCK_SZ, IovecsFor(Lengths(|disk[fd]|, BLOCK_SZ), bufs));
  }

  lemma AllocateUntouched(heap: Heap, memory: map<nat, seq<byte>>, posted: seq<Cqe>, fi: nat, info: FileInfo)
    requires Untouched(heap, memory, posted) && fi !in heap
    ensures Untouched(heap[fi := info], memory[fi := PrintOf(heap[fi := info], fi)], posted)
  {
    var heap' := heap[fi := info];
    forall x | x in heap && multiset(CqeIds(posted))[x] == 0
      ensures PrintOf(heap', x) == memory[x]
    {
      assert heap'[x] == heap[x];
    }
  }

  lemma AllocateRequests(heap: Heap, fi: nat, info: FileInfo, sqes: seq<Sqe>)
    requires RequestsOk(heap, sqes) && fi !in heap
    ensures RequestsOk(heap[fi := info], sqes)
  {
  }

  /** A fresh file_info leaves the others' buffers alone, and its own are as allocated. */
  lemma AllocateContents(disk: Disk, heap: Heap, log: History, inflight: seq<Sqe>, cq: seq<Cqe>,
                         fi: nat, info: FileInfo)
    requires fi !in heap && Untouched(heap, log.memory, log.posted)
    requires RequestsOk(heap, log.submitted) && RequestsOk(heap, inflight)
    requires PendingOk(disk, heap, log.memory, cq) && ReapedOk(disk, heap, log.memory, log.reaped)
    ensures var heap' := heap[fi := info];
            var memory' := log.memory[fi := PrintOf(heap', fi)];
            && Untouched(heap', memory', log.posted)
            && RequestsOk(heap', log.submitted) && RequestsOk(heap', inflight)
            && PendingOk(disk, heap', memory', cq) && ReapedOk(disk, heap', memory', log.reaped)
  {
    var heap' := heap[fi := info];
    AllocateUntouched(heap, log.memory, log.posted, fi, info);
    AllocateRequests(heap, fi, info, log.submitted);
    AllocateRequests(heap, fi, info, inflight);
    SameContents(disk, heap, heap', log.memory, log.memory[fi := PrintOf(heap', fi)], cq, log.reaped);
  }

  lemma KeepsAllocate(disk: Disk, q: Queues, e: Event)
    requires e.Allocate? && Inv(disk, q) && Enabled(disk, q, e)
    ensures Inv(disk, Apply(disk, q, e))
  {
    AllocateHeapOk(disk, q.heap, e.fi, e.fd, e.bufs);
    AllocateContents(disk, q.heap, q.log, q.inflight, q.cq, e.fi, NewFileInfo(disk, e.fd, e.bufs));
  }

  lemma KeepsEnqueue(disk: Disk, q: Queues, e: Event)
    requires e.Enqueue? && Inv(disk, q) && Enabled(disk, q, e)
    ensures Inv(disk, Apply(disk, q, e))
  {
    var q' := Apply(disk, q, e);
    var sqe := RequestFor(e.id, q.heap[e.id]);
    SqeIdsAppend(q.log.submitted, [sqe]);
    assert q'.log.submitted == q.log.consumed + q'.sq;
  }

  lemma ConsumeConserves(disk: Disk, q: Queues)
    requires Conserved(q) && Enabled(disk, q, Consume)
    ensures Conserved(Apply(disk, q, Consume)) && q.sq[0] in q.log.submitted
  {
    SqeIdsAppend(q.log.consumed, [q.sq[0]]);
    SqeIdsAppend(q.inflight, [q.sq[0]]);
    assert q.log.consumed + q.sq == (q.log.consumed + [q.sq[0]]) + q.sq[1..];
    assert q.sq[0] == q.log.submitted[|q.log.consumed|];
  }

  lemma KeepsConsume(disk: Disk, q: Queues, e: Event)
    requires e.Consume? && Inv(disk, q) && Enabled(disk, q, e)
    ensures Inv(disk, Apply(disk, q, e))
  {
    ConsumeConserves(disk, q);
    assert RequestsOk(q.heap, q.inflight + [q.sq[0]]);
  }

  lemma ReapConserves(disk: Disk, q: Queues)
    requires Conserved(q) && Enabled(disk, q, Reap)
    ensures Conserved(Apply(disk, q, Reap))
  {
    var q' := Apply(disk, q, Reap);
    assert ReapedCqes(q'.log.reaped) == ReapedCqes(q.log.reaped) + [q.cq[0]];
    assert ReapedCqes(q.log.reaped) + q.cq == ReapedCqes(q'.log.reaped) + q.cq[1..];
  }

  lemma ReapDelivers(disk: Disk, heap: Heap, memory: map<nat, seq<byte>>, cq: seq<Cqe>, reaped: seq<Reaped>)
    requires cq != [] && PendingOk(disk, heap, memory, cq) && ReapedOk(disk, heap, memory, reaped)
    ensures PendingOk(disk, heap, memory, cq[1..])
    ensures ReapedOk(disk, heap, memory, reaped + [Reaped(cq[0], PrintOf(heap, cq[0].userData))])
  {
  }

  lemma KeepsReap(disk: Disk, q: Queues, e: Event)
    requires e.Reap? && Inv(disk, q) && Enabled(disk, q, e)
    ensures Inv(disk, Apply(disk, q, e))
  {
    ReapConserves(disk, q);
    ReapDelivers(disk, q.heap, q.log.memory, q.cq, q.log.reaped);
  }

  /** The kernel's transfer for a well-formed request touches that request's file_info alone and delivers its bytes. */
  lemma ReadvDelivers(disk: Disk, heap: Heap, sqe: Sqe, res: int)
    requires HeapOk(disk, heap) && CanComplete(disk, heap, sqe, res)
    requires sqe.userData in heap && sqe == RequestFor(sqe.userData, heap[sqe.userData])
    ensures var heap' := KernelReadv(disk, heap, sqe, res);
            && HeapOk(disk, heap')
            && heap'.Keys == heap.Keys
            && (forall fi :: fi in heap ==> heap'[fi].fd == heap[fi].fd && heap'[fi].fileSz == heap[fi].fileSz)
            && (forall fi :: fi in heap && fi != sqe.userData ==> heap'[fi] == heap[fi])
            && var content := disk[heap[sqe.userData].fd];
               && res <= |content| == |PrintOf(heap, sqe.userData)|
               && PrintOf(heap', sqe.userData) == Filled(content, res, PrintOf(heap, sqe.userData))
  {
    var fi := sqe.userData;
    var info := heap[fi];
    var heap' := KernelReadv(disk, heap, sqe, res);
    SplitFacts(info.fileSz, BLOCK_SZ, info.iovecs);
    assert info.iovecs[..sqe.len] == info.iovecs && info.iovecs[sqe.len..] == [];
    if res >= 0 {
      var data := disk[info.fd][..res];
      ReadThenPrint(info.fileSz, BLOCK_SZ, info.iovecs, data);
      assert heap'[fi].iovecs == Scatter(info.iovecs, data);
    }
  }

  /**
   read_from_cq prints the file exactly when the buffers already held the bytes that the readv did not bring; a failed
   readv brings none.
   */
  lemma ReadvPrintsFileIff(disk: Disk, heap: Heap, sqe: Sqe, res: int)
    requires HeapOk(disk, heap) && CanComplete(disk, heap, sqe, res)
    requires sqe.userData in heap && sqe == RequestFor(sqe.userData, heap[sqe.userData])
    ensures var content := disk[heap[sqe.userData].fd];
            var before, after := PrintOf(heap, sqe.userData), PrintOf(KernelReadv(disk, heap, sqe, res), sqe.userData);
            var n := if res < 0 then 0 else res;
            && n <= |content| == |before|
            && (after == content <==> before[n..] == content[n..])
            && (res < 0 ==> after == before)
  {
    ReadvDelivers(disk, heap, sqe, res);
    FilledIsFileIff(disk[heap[sqe.userData].fd], res, PrintOf(heap, sqe.userData));
  }

  lemma SqeIdsWithout(s: seq<Sqe>, j: nat)
    requires j < |s|
    ensures multiset(SqeIds(s)) == multiset(SqeIds(s[..j] + s[j + 1..])) + multiset{s[j].userData}
  {
    RemoveAt(SqeIds(s), j);
    assert SqeIds(s[..j] + s[j + 1..]) == SqeIds(s)[..j] + SqeIds(s)[j + 1..];
  }

  lemma CompleteConserves(disk: Disk, q: Queues, e: Event)
    requires e.Complete? && Conserved(q) && Enabled(disk, q, e)
    ensures Conserved(Apply(disk, q, e))
  {
    var sqe := q.inflight[e.j];
    var cqe := Cqe(sqe.userData, e.res);
    SqeIdsWithout(q.inflight, e.j);
    CqeIdsAppend(q.log.posted, [cqe]);
    assert CqeIds([cqe]) == [sqe.userData];
    assert ReapedCqes(q.log.reaped) + (q.cq + [cqe]) == (ReapedCqes(q.log.reaped) + q.cq) + [cqe];
  }

  lemma FirstCounted(cq: seq<Cqe>)
    requires cq != []
    ensures multiset(CqeIds(cq))[cq[0].userData] >= 1
  {
    assert CqeIds(cq)[0] == cq[0].userData;
  }

  /** A file whose completion waits has no request anywhere. */
  lemma WaitingIsAlone(q: Queues)
    requires Conserved(q) && NoRepeats(SqeIds(q.log.submitted)) && q.cq != []
    ensures multiset(SqeIds(q.sq))[q.cq[0].userData] == multiset(SqeIds(q.inflight))[q.cq[0].userData] == 0
  {
    OnePlace(q, q.cq[0].userData);
    FirstCounted(q.cq);
  }

  /** A request in flight has no completion waiting. */
  lemma InflightNotPending(q: Queues, j: nat)
    requires Conserved(q) && NoRepeats(SqeIds(q.log.submitted)) && j < |q.inflight|
    ensures multiset(CqeIds(q.log.posted))[q.inflight[j].userData] == 0
    ensures forall i :: 0 <= i < |q.cq| ==> q.cq[i].userData != q.inflight[j].userData
  {
    var id := q.inflight[j].userData;
    OnePlace(q, id);
    assert SqeIds(q.inflight)[j] == id;
    assert multiset(SqeIds(q.inflight))[id] >= 1;
    forall i | 0 <= i < |q.cq|
      ensures q.cq[i].userData != id
    {
      assert CqeIds(q.cq)[i] == q.cq[i].userData;
      assert CqeIds(q.cq)[i] in multiset(CqeIds(q.cq));
    }
  }

  /** A transfer for one request leaves what other completions deliver alone, and delivers its own. */
  lemma PendingAfterReadv(disk: Disk, heap: Heap, memory: map<nat, seq<byte>>, cq: seq<Cqe>, sqe: Sqe, res: int)
    requires HeapOk(disk, heap) && CanComplete(disk, heap, sqe, res) && PendingOk(disk, heap, memory, cq)
    requires sqe.userData in memory && PrintOf(heap, sqe.userData) == memory[sqe.userData]
    requires sqe.userData in heap && sqe == RequestFor(sqe.userData, heap[sqe.userData])
    requires forall i :: 0 <= i < |cq| ==> cq[i].userData != sqe.userData
    ensures PendingOk(disk, KernelReadv(disk, heap, sqe, res), memory, cq + [Cqe(sqe.userData, res)])
  {
    var heap' := KernelReadv(disk, heap, sqe, res);
    ReadvDelivers(disk, heap, sqe, res);
    assert forall i :: 0 <= i < |cq| ==> PrintOf(heap', cq[i].userData) == PrintOf(heap, cq[i].userData);
  }

  lemma UntouchedAfterReadv(disk: Disk, q: Queues, j: nat, res: int)
    requires HeapOk(disk, q.heap) && RequestsOk(q.heap, q.inflight) && Untouched(q.heap, q.log.memory, q.log.posted)
    requires j < |q.inflight| && CanComplete(disk, q.heap, q.inflight[j], res)
    ensures Untouched(KernelReadv(disk, q.heap, q.inflight[j], res), q.log.memory,
                      q.log.posted + [Cqe(q.inflight[j].userData, res)])
  {
    var sqe := q.inflight[j];
    var heap' := KernelReadv(disk, q.heap, sqe, res);
    ReadvDelivers(disk, q.heap, sqe, res);
    CqeIdsAppend(q.log.posted, [Cqe(sqe.userData, res)]);
    assert CqeIds([Cqe(sqe.userData, res)]) == [sqe.userData];
    forall fi | fi in heap' && multiset(CqeIds(q.log.posted + [Cqe(sqe.userData, res)]))[fi] == 0
      ensures PrintOf(heap', fi) == q.log.memory[fi]
    {
      assert fi != sqe.userData;
    }
  }

  /** Whatever a request asks for, the kernel's transfer keeps every file_info's shape. */
  lemma ReadvKeepsShape(disk: Disk, heap: Heap, sqe: Sqe, res: int)
    requires HeapOk(disk, heap) && CanComplete(disk, heap, sqe, res)
    ensures var heap' := KernelReadv(disk, heap, sqe, res);
            && HeapOk(disk, heap')
            && heap'.Keys == heap.Keys
            && (forall fi :: fi in heap ==> heap'[fi].fd == heap[fi].fd && heap'[fi].fileSz == heap[fi].fileSz)
  {
    if res >= 0 {
      var info := heap[sqe.addr];
      var data := disk[sqe.fd][sqe.off..sqe.off + res];
      ScatterKeepsSplit(info.fileSz, BLOCK_SZ, info.iovecs, sqe.len, data);
    }
  }

  /** Requests and reports of the past do not depend on buffer contents. */
  lemma StableUnderReadv(disk: Disk, heap: Heap, heap': Heap, log: History, inflight: seq<Sqe>)
    requires heap'.Keys == heap.Keys
    requires forall fi :: fi in heap ==> heap'[fi].fd == heap[fi].fd && heap'[fi].fileSz == heap[fi].fileSz
    requires RequestsOk(heap, log.submitted) && RequestsOk(heap, inflight)
    requires ReapedOk(disk, heap, log.memory, log.reaped)
    ensures RequestsOk(heap', log.submitted) && RequestsOk(heap', inflight)
    ensures ReapedOk(disk, heap', log.memory, log.reaped)
  {
  }

  lemma CompleteKeepsContents(disk: Disk, q: Queues, j: nat, res: int)
    requires ContentsOk(disk, q) && j < |q.inflight| && CanComplete(disk, q.heap, q.inflight[j], res)
    requires forall i :: 0 <= i < |q.cq| ==> q.cq[i].userData != q.inflight[j].userData
    requires multiset(CqeIds(q.log.posted))[q.inflight[j].userData] == 0
    ensures ContentsOk(disk, Apply(disk, q, Complete(j, res)))
  {
    var q' := Apply(disk, q, Complete(j, res));
    PendingAfterReadv(disk, q.heap, q.log.memory, q.cq, q.inflight[j], res);
    UntouchedAfterReadv(disk, q, j, res);
    ReadvDelivers(disk, q.heap, q.inflight[j], res);
    StableUnderReadv(disk, q.heap, q'.heap, q.log, q.inflight);
  }

  lemma KeepsComplete(disk: Disk, q: Queues, e: Event)
    requires e.Complete? && Inv(disk, q) && Enabled(disk, q, e)
    ensures Inv(disk, Apply(disk, q, e))
  {
    CompleteConserves(disk, q, e);
    InflightNotPending(q, e.j);
    CompleteKeepsContents(disk, q, e.j, e.res);
  }

  /** Every step keeps the invariant. */
  lemma StepKeeps(disk: Disk, q: Queues, e: Event)
    requires Inv(disk, q) && Enabled(disk, q, e)
    ensures Inv(disk, Apply(disk, q, e))
  {
    match e
    case Silent =>
    case Allocate(_, _, _) => KeepsAllocate(disk, q, e);
    case Enqueue(_) => KeepsEnqueue(disk, q, e);
    case Consume => KeepsConsume(disk, q, e);
    case Complete(_, _) => KeepsComplete(disk, q, e);
    case Reap => KeepsReap(disk, q, e);
  }
}
