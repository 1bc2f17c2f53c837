/**
 example/polling.c as a machine: one request per file on a ring shared by all files, completions in any order and
 of any length, told apart by `user_data`. The kernel's thread and the program's thread take turns in any way; the
 program's loop is cut where it looks at the queue, writes, updates the file, and marks the completion seen.
 */
module Polling {
  import opened Words
  import opened Bytes

  const BUFFER_SIZE: nat := 4096
  const QUEUE_DEPTH: nat := 16

  datatype Sqe = Sqe(fd: int, off: nat, addr: nat, len: nat, userData: nat)

  datatype Cqe = Cqe(userData: nat, res: int)

  /** An entry of `files`; `isOpen` says whether open() succeeded for it. */
  datatype File = File(isOpen: bool, fd: int, offset: nat, buf: seq<byte>)

  datatype Pc = AtPeek | AtWrite | AtUpdate | AtSeen

  /** Bytes written to standard output, with the file they were written for. */
  datatype Chunk = Chunk(file: nat, bytes: seq<byte>)

  /**
   Requests prepared in the submission ring but not submitted, submitted but not consumed, and in the kernel's
   hands; completions posted; then the program's counter and place, and the history: output, files whose read
   was reported as failed, and the number of completions dealt with.
   */
  datatype State = State(
    files: seq<File>,
    prepared: seq<Sqe>, published: seq<Sqe>, inflight: seq<Sqe>, cq: seq<Cqe>,
    numFiles: int, pc: Pc,
    stdout: seq<Chunk>, failed: set<nat>, handled: nat)

  type Disk = map<int, seq<byte>>

  datatype Step =
    | Submit
    | Consume
    | Complete(j: nat, res: int)
    | Peek
    | Write
    | Update
    | Seen

  // ---------------------------------------------------------------- the program

  function ReadRequest(i: nat, f: File): Sqe {
    Sqe(f.fd, f.offset, i, BUFFER_SIZE, i)
  }

  /** io_uring_get_sqe() fails when the submission ring is full, and setup_read then does nothing. */
  predicate HasSqe(s: State) {
    |s.prepared| + |s.published| < QUEUE_DEPTH
  }

  function SetupRead(s: State, i: nat): State
    requires i < |s.files|
  {
    if HasSqe(s) then s.(prepared := s.prepared + [ReadRequest(i, s.files[i])]) else s
  }

  /** The effect of a completion on its file: advance and ask for more, or count the file out. */
  function UpdateFile(s: State, cqe: Cqe): State
    requires cqe.userData < |s.files|
  {
    var i := cqe.userData;
    if cqe.res > 0 then
      SetupRead(s.(files := s.files[i := s.files[i].(offset := s.files[i].offset + cqe.res)]), i)
    else if cqe.res < 0 then
      s.(numFiles := s.numFiles - 1, failed := s.failed + {i})
    else
      s.(numFiles := s.numFiles - 1)
  }

  // ---------------------------------------------------------------- the kernel

  /** read(): an error, or end of file and nothing, or at least one byte before it. */
  predicate CanRead(disk: Disk, sqe: Sqe, res: int) {
    res >= 0 ==>
      && sqe.fd in disk
      && if sqe.off >= |disk[sqe.fd]| then res == 0
         else 1 <= res <= Min(sqe.len, |disk[sqe.fd]| - sqe.off)
  }

  function Fill(disk: Disk, files: seq<File>, sqe: Sqe, res: int): seq<File>
    requires CanRead(disk, sqe, res) && sqe.addr < |files| && res <= |files[sqe.addr].buf|
  {
    if res <= 0 then files else
      var f := files[sqe.addr];
      files[sqe.addr := f.(buf := disk[sqe.fd][sqe.off..sqe.off + res] + f.buf[res..])]
  }

  // ---------------------------------------------------------------- the machine

  predicate Enabled(disk: Disk, s: State, step: Step) {
    match step
    case Submit => true
    case Consume => s.published != []
    case Complete(j, res) =>
      && j < |s.inflight|
      && CanRead(disk, s.inflight[j], res)
      && s.inflight[j].addr < |s.files|
      && res <= |s.files[s.inflight[j].addr].buf|
    case Peek => s.pc.AtPeek? && s.numFiles > 0 && s.cq != []
    case Write =>
      && s.pc.AtWrite? && s.cq != [] && s.cq[0].userData < |s.files|
      && s.cq[0].res <= |s.files[s.cq[0].userData].buf|
    case Update => s.pc.AtUpdate? && s.cq != [] && s.cq[0].userData < |s.files|
    case Seen => s.pc.AtSeen? && s.cq != []
  }

  function Apply(disk: Disk, s: State, step: Step): State
    requires Enabled(disk, s, step)
  {
    match step
    case Submit => s.(published := s.published + s.prepared, prepared := [])
    case Consume => s.(inflight := s.inflight + [s.published[0]], published := s.published[1..])
    case Complete(j, res) =>
      s.(files := Fill(disk, s.files, s.inflight[j], res),
         cq := s.cq + [Cqe(s.inflight[j].userData, res)],
         inflight := s.inflight[..j] + s.inflight[j + 1..])
    case Peek => s.(pc := AtWrite)
    case Write =>
      var cqe := s.cq[0];
      s.(pc := AtUpdate,
         stdout := if cqe.res > 0 then s.stdout + [Chunk(cqe.userData, s.files[cqe.userData].buf[..cqe.res])]
                   else s.stdout)
    case Update => UpdateFile(s, s.cq[0]).(pc := AtSeen, handled := s.handled + 1)
    case Seen => s.(pc := AtPeek, cq := s.cq[1..])
  }

  // ---------------------------------------------------------------- what is pending

  function SqeIds(s: seq<Sqe>): seq<nat> {
    seq(|s|, i requires 0 <= i < |s| => s[i].userData)
  }

  function CqeIds(s: seq<Cqe>): seq<nat> {
    seq(|s|, i requires 0 <= i < |s| => s[i].userData)
  }

  /** Completions that the program has yet to deal with; one only waiting to be marked seen is not among them. */
  function LiveCq(s: State): seq<Cqe> {
    if s.pc.AtSeen? && s.cq != [] then s.cq[1..] else s.cq
  }

  ghost function Outstanding(s: State): multiset<nat> {
    multiset(SqeIds(s.prepared)) + multiset(SqeIds(s.published)) + multiset(SqeIds(s.inflight))
    + multiset(CqeIds(LiveCq(s)))
  }

  function Pending(s: State): nat {
    |s.prepared| + |s.published| + |s.inflight| + |LiveCq(s)|
  }

  function Skipped(files: seq<File>): nat {
    if files == [] then 0 else Skipped(files[..|files| - 1]) + (if files[|files| - 1].isOpen then 0 else 1)
  }

  function Offsets(files: seq<File>): nat {
    if files == [] then 0 else Offsets(files[..|files| - 1]) + files[|files| - 1].offset
  }

  /** The output of one file, taken out of the common stream. */
  function OutputOf(stdout: seq<Chunk>, i: nat): seq<byte> {
    if stdout == [] then [] else
      var last := stdout[|stdout| - 1];
      OutputOf(stdout[..|stdout| - 1], i) + (if last.file == i then last.bytes else [])
  }

  // ---------------------------------------------------------------- invariant

  ghost predicate FilesOk(disk: Disk, files: seq<File>) {
    && 1 <= |files| <= QUEUE_DEPTH
    && forall i :: 0 <= i < |files| ==>
         && |files[i].buf| == BUFFER_SIZE
         && (files[i].isOpen ==> files[i].fd in disk && files[i].offset <= |disk[files[i].fd]|)
         && (!files[i].isOpen ==> files[i].offset == 0)
  }

  ghost predicate RequestsOk(files: seq<File>, sqes: seq<Sqe>) {
    forall k :: 0 <= k < |sqes| ==>
      && sqes[k].userData < |files|
      && files[sqes[k].userData].isOpen
      && sqes[k] == ReadRequest(sqes[k].userData, files[sqes[k].userData])
  }

  /** A completion's bytes are in its file's buffer, and they are the file's next. */
  ghost predicate CqeOk(disk: Disk, files: seq<File>, c: Cqe)
    requires FilesOk(disk, files)
  {
    && c.userData < |files|
    && files[c.userData].isOpen
    && var f := files[c.userData];
       var content := disk[f.fd];
       && (c.res > 0 ==>
             && c.res <= BUFFER_SIZE
             && f.offset + c.res <= |content|
             && f.buf[..c.res] == content[f.offset..f.offset + c.res])
       && (c.res == 0 ==> f.offset == |content|)
  }

  ghost predicate CqOk(disk: Disk, files: seq<File>, cq: seq<Cqe>)
    requires FilesOk(disk, files)
  {
    forall k :: 0 <= k < |cq| ==> CqeOk(disk, files, cq[k])
  }

  /** Bytes of file `i` written but not yet counted in its offset. */
  function Written(s: State, i: nat): nat {
    if s.pc.AtUpdate? && s.cq != [] && s.cq[0].userData == i && s.cq[0].res > 0 then s.cq[0].res else 0
  }

  ghost predicate OutputOk(disk: Disk, s: State)
    requires FilesOk(disk, s.files)
  {
    forall i: nat :: i < |s.files| ==>
      if s.files[i].isOpen then
        && s.files[i].offset + Written(s, i) <= |disk[s.files[i].fd]|
        && OutputOf(s.stdout, i) == disk[s.files[i].fd][..s.files[i].offset + Written(s, i)]
      else OutputOf(s.stdout, i) == []
  }

  /** A file with nothing pending was read to its end or reported as failed. */
  ghost predicate EndedOk(disk: Disk, files: seq<File>, pending: multiset<nat>, failed: set<nat>)
    requires FilesOk(disk, files)
  {
    forall i: nat :: i < |files| && files[i].isOpen && pending[i] == 0 && i !in failed ==>
      files[i].offset == |disk[files[i].fd]|
  }

  /** Requests and completions belong to open files and say what those files need next. */
  ghost predicate Shape(disk: Disk, s: State) {
    && FilesOk(disk, s.files)
    && (!s.pc.AtPeek? ==> s.cq != [])
    && RequestsOk(s.files, s.prepared) && RequestsOk(s.files, s.published) && RequestsOk(s.files, s.inflight)
    && CqOk(disk, s.files, LiveCq(s))
  }

  /** No file has two requests or completions anywhere. */
  ghost predicate Unique(s: State) {
    forall i :: Outstanding(s)[i] <= 1
  }

  /** The program's counter is the files with something pending plus those that never opened. */
  ghost predicate Counted(s: State) {
    && s.numFiles == Pending(s) + Skipped(s.files)
    && s.handled + s.numFiles <= |s.files| + Offsets(s.files)
  }

  ghost predicate Inv(disk: Disk, s: State) {
    Shape(disk, s) && Unique(s) && Counted(s) && OutputOk(disk, s) && EndedOk(disk, s.files, Outstanding(s), s.failed)
  }

  // ---------------------------------------------------------------- requests

  /**
   What setup_read asks for reaches exactly as far as the buffer and the file do: a read can bring that much, and no
   more, and before the end of the file it brings something.
   */
  lemma RequestFitsBuffer(disk: Disk, i: nat, f: File, res: nat)
    requires f.fd in disk && f.offset <= |disk[f.fd]| && |f.buf| == BUFFER_SIZE
    ensures CanRead(disk, ReadRequest(i, f), res)
       <==> res <= Min(|f.buf|, |disk[f.fd]| - f.offset) && (res == 0 ==> f.offset == |disk[f.fd]|)
  {
  }

  // ---------------------------------------------------------------- counting

  lemma SqeIdsAppend(a: seq<Sqe>, b: seq<Sqe>)
    ensures SqeIds(a + b) == SqeIds(a) + SqeIds(b)
  {
  }

  lemma CqeIdsAppend(a: seq<Cqe>, b: seq<Cqe>)
    ensures CqeIds(a + b) == CqeIds(a) + CqeIds(b)
  {
  }

  lemma SqeIdIn(s: seq<Sqe>, j: nat)
    requires j < |s|
    ensures multiset(SqeIds(s))[s[j].userData] >= 1
  {
    assert SqeIds(s)[j] == s[j].userData;
  }

  lemma CqeIdIn(s: seq<Cqe>, j: nat)
    requires j < |s|
    ensures multiset(CqeIds(s))[s[j].userData] >= 1
  {
    assert CqeIds(s)[j] == s[j].userData;
  }

  /** At most `n` different numbers are below `n`. */
  lemma {:induction false} Pigeonhole(m: multiset<nat>, n: nat)
    requires forall x :: x in m ==> x < n && m[x] <= 1
    ensures |m| <= n
    decreases n
  {
    if n == 0 {
      assert forall x :: x !in m;
      assert m == multiset{};
    } else {
      var rest := m[n - 1 := 0];
      Pigeonhole(rest, n - 1);
      assert m == rest + multiset{}[n - 1 := m[n - 1]];
    }
  }

  lemma {:induction false} OffsetsUpdate(files: seq<File>, i: nat, f: File)
    requires i < |files|
    ensures Offsets(files[i := f]) == Offsets(files) - files[i].offset + f.offset
  {
    var n := |files| - 1;
    if i < n {
      OffsetsUpdate(files[..n], i, f);
      assert files[i := f][..n] == files[..n][i := f];
    } else {
      assert files[i := f][..n] == files[..n];
    }
  }

  lemma {:induction false} SkippedUpdate(files: seq<File>, i: nat, f: File)
    requires i < |files| && f.isOpen == files[i].isOpen
    ensures Skipped(files[i := f]) == Skipped(files)
  {
    var n := |files| - 1;
    if i < n {
      SkippedUpdate(files[..n], i, f);
      assert files[i := f][..n] == files[..n][i := f];
    } else {
      assert files[i := f][..n] == files[..n];
    }
  }

  lemma OutputSnoc(stdout: seq<Chunk>, c: Chunk, i: nat)
    ensures OutputOf(stdout + [c], i) == OutputOf(stdout, i) + if c.file == i then c.bytes else []
  {
    assert (stdout + [c])[..|stdout|] == stdout;
  }

  // ---------------------------------------------------------------- pending requests, step by step

  lemma OutstandingAreFiles(disk: Disk, s: State)
    requires Shape(disk, s)
    ensures forall i :: i in Outstanding(s) ==> i < |s.files|
    ensures |Outstanding(s)| == Pending(s)
  {
    forall i | i in Outstanding(s)
      ensures i < |s.files|
    {
      if i in SqeIds(s.prepared) {
        var k :| 0 <= k < |s.prepared| && s.prepared[k].userData == i;
      } else if i in SqeIds(s.published) {
        var k :| 0 <= k < |s.published| && s.published[k].userData == i;
      } else if i in SqeIds(s.inflight) {
        var k :| 0 <= k < |s.inflight| && s.inflight[k].userData == i;
      } else {
        var k :| 0 <= k < |LiveCq(s)| && LiveCq(s)[k].userData == i;
      }
    }
  }

  /** With a completion still to be dealt with there is always a free submission slot. */
  lemma SlotForNextRead(disk: Disk, s: State)
    requires Shape(disk, s) && Unique(s) && LiveCq(s) != []
    ensures HasSqe(s)
  {
    OutstandingAreFiles(disk, s);
    Pigeonhole(Outstanding(s), |s.files|);
  }

  /** A request in the kernel's hands has no completion waiting. */
  lemma InflightIsAlone(s: State, j: nat)
    requires j < |s.inflight| && Unique(s)
    ensures forall k :: 0 <= k < |LiveCq(s)| ==> LiveCq(s)[k].userData != s.inflight[j].userData
  {
    SqeIdIn(s.inflight, j);
    assert Outstanding(s)[s.inflight[j].userData] <= 1;
    forall k | 0 <= k < |LiveCq(s)|
      ensures LiveCq(s)[k].userData != s.inflight[j].userData
    {
      CqeIdIn(LiveCq(s), k);
    }
  }

  /** The oldest completion's file has no other request anywhere. */
  lemma OldestIsAlone(s: State)
    requires LiveCq(s) != [] && Unique(s)
    ensures var i := LiveCq(s)[0].userData;
            && (forall k :: 0 <= k < |s.prepared| ==> s.prepared[k].userData != i)
            && (forall k :: 0 <= k < |s.published| ==> s.published[k].userData != i)
            && (forall k :: 0 <= k < |s.inflight| ==> s.inflight[k].userData != i)
            && (forall k :: 1 <= k < |LiveCq(s)| ==> LiveCq(s)[k].userData != i)
  {
    var live := LiveCq(s);
    var i := live[0].userData;
    CqeIdIn(live, 0);
    assert Outstanding(s)[i] <= 1;
    forall k | 0 <= k < |s.prepared| ensures s.prepared[k].userData != i { SqeIdIn(s.prepared, k); }
    forall k | 0 <= k < |s.published| ensures s.published[k].userData != i { SqeIdIn(s.published, k); }
    forall k | 0 <= k < |s.inflight| ensures s.inflight[k].userData != i { SqeIdIn(s.inflight, k); }
    assert live == [live[0]] + live[1..];
    CqeIdsAppend([live[0]], live[1..]);
    forall k | 1 <= k < |live| ensures live[k].userData != i { CqeIdIn(live[1..], k - 1); }
  }

  /** The step deals with a completion for good. */
  predicate EndsFile(s: State, step: Step) {
    step.Update? && s.cq != [] && s.cq[0].res <= 0
  }

  lemma PendingSubmit(disk: Disk, s: State)
    ensures Outstanding(Apply(disk, s, Submit)) == Outstanding(s)
  {
    SqeIdsAppend(s.published, s.prepared);
  }

  lemma PendingConsume(disk: Disk, s: State)
    requires Enabled(disk, s, Consume)
    ensures Outstanding(Apply(disk, s, Consume)) == Outstanding(s)
  {
    var id := s.published[0].userData;
    assert SqeIds(s.published) == [id] + SqeIds(s.published[1..]);
    assert SqeIds(s.inflight + [s.published[0]]) == SqeIds(s.inflight) + [id];
    MoveOne(multiset(SqeIds(s.prepared)), multiset(SqeIds(s.published[1..])), multiset(SqeIds(s.inflight)),
            multiset(CqeIds(LiveCq(s))), id);
  }

  lemma MoveOne(a: multiset<nat>, b: multiset<nat>, c: multiset<nat>, d: multiset<nat>, x: nat)
    ensures a + (multiset{x} + b) + c + d == a + b + (c + multiset{x}) + d
  {
  }

  lemma LiveComplete(disk: Disk, s: State, j: nat, res: int)
    requires Enabled(disk, s, Complete(j, res)) && (!s.pc.AtPeek? ==> s.cq != [])
    ensures LiveCq(Apply(disk, s, Complete(j, res))) == LiveCq(s) + [Cqe(s.inflight[j].userData, res)]
  {
  }

  lemma PendingComplete(disk: Disk, s: State, j: nat, res: int)
    requires Enabled(disk, s, Complete(j, res)) && (!s.pc.AtPeek? ==> s.cq != [])
    ensures var s' := Apply(disk, s, Complete(j, res));
            && LiveCq(s') == LiveCq(s) + [Cqe(s.inflight[j].userData, res)]
            && Outstanding(s') == Outstanding(s)
  {
    var s', id := Apply(disk, s, Complete(j, res)), s.inflight[j].userData;
    LiveComplete(disk, s, j, res);
    SqeIdsWithout(s.inflight, j);
    CqeIdsAppend(LiveCq(s), [Cqe(id, res)]);
    assert CqeIds([Cqe(id, res)]) == [id];
    PassOne(multiset(SqeIds(s.prepared)), multiset(SqeIds(s.published)), multiset(SqeIds(s'.inflight)),
            multiset(CqeIds(LiveCq(s))), id);
  }

  lemma SqeIdsWithout(s: seq<Sqe>, j: nat)
    requires j < |s|
    ensures multiset(SqeIds(s)) == multiset(SqeIds(s[..j] + s[j + 1..])) + multiset{s[j].userData}
  {
    RemoveAt(SqeIds(s), j);
    assert SqeIds(s[..j] + s[j + 1..]) == SqeIds(s)[..j] + SqeIds(s)[j + 1..];
  }

  lemma PassOne(a: multiset<nat>, b: multiset<nat>, c: multiset<nat>, d: multiset<nat>, x: nat)
    ensures a + b + (c + multiset{x}) + d == a + b + c + (d + multiset{x})
  {
  }

  /** After a read that returned bytes, the file's next request takes the completion's place. */
  lemma PendingMore(disk: Disk, s: State)
    requires Enabled(disk, s, Update) && HasSqe(s) && s.cq[0].res > 0
    ensures var s' := Apply(disk, s, Update);
            LiveCq(s) == [s.cq[0]] + LiveCq(s') && Outstanding(s') == Outstanding(s) && Pending(s') == Pending(s)
  {
    var s' := Apply(disk, s, Update);
    var id := s.cq[0].userData;
    assert CqeIds(s.cq) == [id] + CqeIds(s.cq[1..]);
    assert SqeIds(s'.prepared) == SqeIds(s.prepared) + [id];
    TradeOne(multiset(SqeIds(s.prepared)), multiset(SqeIds(s.published)), multiset(SqeIds(s.inflight)),
             multiset(CqeIds(s.cq[1..])), id);
  }

  lemma TradeOne(a: multiset<nat>, b: multiset<nat>, c: multiset<nat>, d: multiset<nat>, x: nat)
    ensures (a + multiset{x}) + b + c + d == a + b + c + (multiset{x} + d)
  {
  }

  /** After the last completion of a file nothing is pending for it. */
  lemma PendingLast(disk: Disk, s: State)
    requires Enabled(disk, s, Update) && s.cq[0].res <= 0
    ensures var s' := Apply(disk, s, Update);
            && LiveCq(s) == [s.cq[0]] + LiveCq(s')
            && Outstanding(s) == Outstanding(s') + multiset{s.cq[0].userData}
            && Pending(s') == Pending(s) - 1
  {
    var id := s.cq[0].userData;
    assert CqeIds(s.cq) == [id] + CqeIds(s.cq[1..]);
    DropOne(multiset(SqeIds(s.prepared)), multiset(SqeIds(s.published)), multiset(SqeIds(s.inflight)),
            multiset(CqeIds(s.cq[1..])), id);
  }

  lemma DropOne(a: multiset<nat>, b: multiset<nat>, c: multiset<nat>, d: multiset<nat>, x: nat)
    ensures a + b + c + (multiset{x} + d) == a + b + c + d + multiset{x}
  {
  }

  /** What a step does to the pending requests. */
  lemma PendingAfter(disk: Disk, s: State, step: Step)
    requires Shape(disk, s) && Unique(s) && Enabled(disk, s, step)
    ensures var s' := Apply(disk, s, step);
            if EndsFile(s, step) then
              Outstanding(s) == Outstanding(s') + multiset{s.cq[0].userData} && Pending(s') == Pending(s) - 1
            else
              Outstanding(s') == Outstanding(s) && Pending(s') == Pending(s)
  {
    match step
    case Submit => PendingSubmit(disk, s);
    case Consume => PendingConsume(disk, s);
    case Complete(j, res) => PendingComplete(disk, s, j, res);
    case Update => SlotForNextRead(disk, s); if s.cq[0].res > 0 { PendingMore(disk, s); } else { PendingLast(disk, s); }
    case _ => assert LiveCq(Apply(disk, s, step)) == LiveCq(s);
  }

  // ---------------------------------------------------------------- the invariant, part by part

  /** Advancing one file leaves requests and completions of the others as they should be. */
  lemma AdvanceKeepsOthers(disk: Disk, files: seq<File>, i: nat, offset: nat, sqes: seq<Sqe>)
    requires FilesOk(disk, files) && i < |files|
    requires files[i].isOpen && offset <= |disk[files[i].fd]|
    requires RequestsOk(files, sqes) && forall k :: 0 <= k < |sqes| ==> sqes[k].userData != i
    ensures FilesOk(disk, files[i := files[i].(offset := offset)])
    ensures RequestsOk(files[i := files[i].(offset := offset)], sqes)
  {
  }

  lemma AdvanceKeepsCq(disk: Disk, files: seq<File>, i: nat, offset: nat, cq: seq<Cqe>)
    requires FilesOk(disk, files) && i < |files|
    requires files[i].isOpen && offset <= |disk[files[i].fd]|
    requires CqOk(disk, files, cq) && forall k :: 0 <= k < |cq| ==> cq[k].userData != i
    ensures FilesOk(disk, files[i := files[i].(offset := offset)])
    ensures CqOk(disk, files[i := files[i].(offset := offset)], cq)
  {
    var files' := files[i := files[i].(offset := offset)];
    forall k | 0 <= k < |cq|
      ensures CqeOk(disk, files', cq[k])
    {
      assert CqeOk(disk, files, cq[k]);
      assert files'[cq[k].userData] == files[cq[k].userData];
    }
  }

  lemma UpdateShape(disk: Disk, s: State)
    requires Shape(disk, s) && Unique(s) && Enabled(disk, s, Update)
    ensures Shape(disk, Apply(disk, s, Update))
  {
    var s' := Apply(disk, s, Update);
    assert LiveCq(s') == LiveCq(s)[1..];
    assert CqeOk(disk, s.files, LiveCq(s)[0]);
    if s.cq[0].res > 0 {
      var i, offset := s.cq[0].userData, s.files[s.cq[0].userData].offset + s.cq[0].res;
      OldestIsAlone(s);
      AdvanceKeepsOthers(disk, s.files, i, offset, s.prepared);
      AdvanceKeepsOthers(disk, s.files, i, offset, s.published);
      AdvanceKeepsOthers(disk, s.files, i, offset, s.inflight);
      AdvanceKeepsCq(disk, s.files, i, offset, LiveCq(s'));
    }
  }

  /** The kernel's transfer for a request changes its buffer alone, so all requests stay as they were. */
  lemma FillKeepsRequests(disk: Disk, files: seq<File>, sqe: Sqe, res: int, sqes: seq<Sqe>)
    requires FilesOk(disk, files) && CanRead(disk, sqe, res) && sqe.addr < |files| && res <= |files[sqe.addr].buf|
    requires RequestsOk(files, sqes)
    ensures FilesOk(disk, Fill(disk, files, sqe, res)) && RequestsOk(Fill(disk, files, sqe, res), sqes)
  {
  }

  /** It leaves the other files' completions as they were and delivers its own. */
  lemma FillDelivers(disk: Disk, files: seq<File>, sqe: Sqe, res: int, cq: seq<Cqe>)
    requires FilesOk(disk, files) && CanRead(disk, sqe, res) && sqe.addr < |files| && res <= |files[sqe.addr].buf|
    requires files[sqe.addr].isOpen && sqe == ReadRequest(sqe.addr, files[sqe.addr])
    requires CqOk(disk, files, cq) && forall k :: 0 <= k < |cq| ==> cq[k].userData != sqe.addr
    ensures FilesOk(disk, Fill(disk, files, sqe, res))
    ensures CqOk(disk, Fill(disk, files, sqe, res), cq + [Cqe(sqe.addr, res)])
  {
    var files' := Fill(disk, files, sqe, res);
    FillKeepsRequests(disk, files, sqe, res, []);
    forall k | 0 <= k < |cq|
      ensures CqeOk(disk, files', cq[k])
    {
      assert CqeOk(disk, files, cq[k]);
      assert files'[cq[k].userData] == files[cq[k].userData];
    }
    assert CqeOk(disk, files', Cqe(sqe.addr, res));
  }

  lemma CompleteShape(disk: Disk, s: State, j: nat, res: int)
    requires Shape(disk, s) && Unique(s) && Enabled(disk, s, Complete(j, res))
    ensures Shape(disk, Apply(disk, s, Complete(j, res)))
  {
    var sqe := s.inflight[j];
    assert sqe == ReadRequest(sqe.userData, s.files[sqe.userData]);
    PendingComplete(disk, s, j, res);
    InflightIsAlone(s, j);
    FillKeepsRequests(disk, s.files, sqe, res, s.prepared);
    FillKeepsRequests(disk, s.files, sqe, res, s.published);
    FillKeepsRequests(disk, s.files, sqe, res, s.inflight);
    FillDelivers(disk, s.files, sqe, res, LiveCq(s));
  }

  lemma ShapeKept(disk: Disk, s: State, step: Step)
    requires Shape(disk, s) && Unique(s) && Enabled(disk, s, step)
    ensures Shape(disk, Apply(disk, s, step))
  {
    match step
    case Complete(j, res) => CompleteShape(disk, s, j, res);
    case Update => UpdateShape(disk, s);
    case _ => assert LiveCq(Apply(disk, s, step)) == LiveCq(s);
  }

  lemma CountedKept(disk: Disk, s: State, step: Step)
    requires Shape(disk, s) && Unique(s) && Counted(s) && Enabled(disk, s, step)
    ensures Counted(Apply(disk, s, step))
  {
    var s' := Apply(disk, s, step);
    PendingAfter(disk, s, step);
    match step
    case Complete(j, res) =>
      if res > 0 {
        var i := s.inflight[j].addr;
        OffsetsUpdate(s.files, i, s'.files[i]);
        SkippedUpdate(s.files, i, s'.files[i]);
      }
    case Update =>
      var i := s.cq[0].userData;
      if s.cq[0].res > 0 {
        OffsetsUpdate(s.files, i, s'.files[i]);
        SkippedUpdate(s.files, i, s'.files[i]);
      }
    case _ =>
  }

  lemma WriteOutput(disk: Disk, s: State)
    requires Shape(disk, s) && OutputOk(disk, s) && Enabled(disk, s, Write)
    ensures OutputOk(disk, Apply(disk, s, Write))
  {
    var s' := Apply(disk, s, Write);
    var c := s.cq[0];
    assert CqeOk(disk, s.files, LiveCq(s)[0]);
    if c.res > 0 {
      var f := s.files[c.userData];
      var chunk := Chunk(c.userData, f.buf[..c.res]);
      Slices(disk[f.fd], 0, f.offset, f.offset + c.res);
      forall i: nat | i < |s.files|
        ensures OutputOf(s'.stdout, i) == OutputOf(s.stdout, i) + if i == c.userData then chunk.bytes else []
      {
        OutputSnoc(s.stdout, chunk, i);
      }
    }
  }

  /** Steps that neither write nor update a file leave what is printed and counted alone. */
  lemma SameOutput(disk: Disk, s: State, s': State)
    requires FilesOk(disk, s.files) && FilesOk(disk, s'.files) && OutputOk(disk, s)
    requires |s'.files| == |s.files| && s'.stdout == s.stdout
    requires forall i: nat :: i < |s.files| ==>
               && s'.files[i].isOpen == s.files[i].isOpen && s'.files[i].fd == s.files[i].fd
               && s'.files[i].offset + Written(s', i) == s.files[i].offset + Written(s, i)
    ensures OutputOk(disk, s')
  {
  }

  lemma UpdateOutput(disk: Disk, s: State)
    requires Shape(disk, s) && OutputOk(disk, s)
    requires Enabled(disk, s, Update) && FilesOk(disk, Apply(disk, s, Update).files)
    ensures OutputOk(disk, Apply(disk, s, Update))
  {
    var s' := Apply(disk, s, Update);
    assert LiveCq(s)[0] == s.cq[0] && CqeOk(disk, s.files, LiveCq(s)[0]);
    SameOutput(disk, s, s');
  }

  lemma OtherOutput(disk: Disk, s: State, step: Step)
    requires FilesOk(disk, s.files) && (!s.pc.AtPeek? ==> s.cq != []) && OutputOk(disk, s)
    requires !step.Write? && !step.Update? && Enabled(disk, s, step) && FilesOk(disk, Apply(disk, s, step).files)
    ensures OutputOk(disk, Apply(disk, s, step))
  {
    SameOutput(disk, s, Apply(disk, s, step));
  }

  lemma OutputKept(disk: Disk, s: State, step: Step)
    requires Shape(disk, s) && Unique(s) && OutputOk(disk, s) && Enabled(disk, s, step)
    ensures FilesOk(disk, Apply(disk, s, step).files) && OutputOk(disk, Apply(disk, s, step))
  {
    ShapeKept(disk, s, step);
    if step.Write? {
      WriteOutput(disk, s);
    } else if step.Update? {
      UpdateOutput(disk, s);
    } else {
      OtherOutput(disk, s, step);
    }
  }

  lemma EndedKept(disk: Disk, s: State, step: Step)
    requires Shape(disk, s) && Unique(s) && EndedOk(disk, s.files, Outstanding(s), s.failed) && Enabled(disk, s, step)
    ensures var s' := Apply(disk, s, step);
            FilesOk(disk, s'.files) && EndedOk(disk, s'.files, Outstanding(s'), s'.failed)
  {
    if step.Update? {
      UpdateEnded(disk, s);
    } else {
      ShapeKept(disk, s, step);
      PendingAfter(disk, s, step);
    }
  }

  /** Advancing a file that still has something pending ends no file. */
  lemma EndedAfterMore(disk: Disk, files: seq<File>, i: nat, f: File, pending: multiset<nat>, failed: set<nat>)
    requires FilesOk(disk, files) && i < |files| && FilesOk(disk, files[i := f]) && pending[i] >= 1
    requires EndedOk(disk, files, pending, failed)
    ensures EndedOk(disk, files[i := f], pending, failed)
  {
  }

  /** A file may be left with nothing pending once it is read to its end or reported as failed. */
  lemma EndedAfterLast(disk: Disk, files: seq<File>, i: nat, pending: multiset<nat>,
                       failed: set<nat>, failed': set<nat>)
    requires FilesOk(disk, files) && i < |files|
    requires files[i].isOpen && (i in failed' || files[i].offset == |disk[files[i].fd]|) && failed <= failed'
    requires EndedOk(disk, files, pending + multiset{i}, failed)
    ensures EndedOk(disk, files, pending, failed')
  {
  }

  lemma UpdateEnded(disk: Disk, s: State)
    requires Shape(disk, s) && Unique(s) && EndedOk(disk, s.files, Outstanding(s), s.failed) && Enabled(disk, s, Update)
    ensures var s' := Apply(disk, s, Update);
            FilesOk(disk, s'.files) && EndedOk(disk, s'.files, Outstanding(s'), s'.failed)
  {
    var s' := Apply(disk, s, Update);
    var i := s.cq[0].userData;
    UpdateShape(disk, s);
    assert CqeOk(disk, s.files, LiveCq(s)[0]);
    if s.cq[0].res > 0 {
      SlotForNextRead(disk, s);
      CqeIdIn(LiveCq(s), 0);
      PendingMore(disk, s);
      EndedAfterMore(disk, s.files, i, s'.files[i], Outstanding(s), s.failed);
    } else {
      PendingLast(disk, s);
      EndedAfterLast(disk, s.files, i, Outstanding(s'), s.failed, s'.failed);
    }
  }

  lemma UniqueKept(disk: Disk, s: State, step: Step)
    requires Shape(disk, s) && Unique(s) && Enabled(disk, s, step)
    ensures Unique(Apply(disk, s, step))
  {
    var s' := Apply(disk, s, step);
    PendingAfter(disk, s, step);
    forall i
      ensures Outstanding(s')[i] <= 1
    {
      assert Outstanding(s)[i] <= 1;
    }
  }

  /** Every step of either thread keeps the invariant. */
  lemma StepKeeps(disk: Disk, s: State, step: Step)
    requires Inv(disk, s) && Enabled(disk, s, step)
    ensures Inv(disk, Apply(disk, s, step))
  {
    ShapeKept(disk, s, step);
    UniqueKept(disk, s, step);
    CountedKept(disk, s, step);
    OutputKept(disk, s, step);
    EndedKept(disk, s, step);
  }
}
