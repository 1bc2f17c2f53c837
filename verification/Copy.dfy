/**
 The copy loop of example/io_uring_cp.c. Each round reads up to a block at `offset` into one reused buffer and then
 writes the whole request back out at the same offset, even when the read came back short: what lies in the buffer
 behind the bytes just read is written too, and overwritten by later rounds.
 */
module Copy {
  import opened Words
  import opened Bytes

  const FILE_BLOCK_SIZE: nat := 4096

  /** The results the kernel would give a round's readv and writev; it transfers no more than was asked for. */
  datatype Round = Round(readRes: int, writeRes: int)

  /** Pending: the kernel has given all the results of the schedule and the loop is still running. */
  datatype Outcome = Done | ReadFailed | WriteFailed | Pending

  function BytesToRead(size: nat, offset: nat): nat
    requires offset <= size
  {
    if size - offset > FILE_BLOCK_SIZE then FILE_BLOCK_SIZE else size - offset
  }

  /** The loop on sizes alone. */
  function Plan(size: nat, offset: nat, schedule: seq<Round>): (r: (Outcome, nat))
    requires offset <= size
    ensures offset <= r.1 <= size
    decreases |schedule|
  {
    if offset == size then (Done, offset)
    else if schedule == [] then (Pending, offset)
    else
      var request := BytesToRead(size, offset);
      var bytesRead := Min(schedule[0].readRes, request);
      if bytesRead < 0 then (ReadFailed, offset)
      else if Min(schedule[0].writeRes, request) < bytesRead then (WriteFailed, offset)
      else Plan(size, offset + bytesRead, schedule[1..])
  }

  /** pwrite(): bytes at `offset` and beyond, a gap before them reading as zeros. */
  function Pwrite(file: seq<byte>, offset: nat, data: seq<byte>): (r: seq<byte>)
    ensures data != [] ==> |r| == if |file| > offset + |data| then |file| else offset + |data|
  {
    if data == [] then file else
      var base := if |file| < offset then file + seq(offset - |file|, i => 0 as byte) else file;
      base[..offset] + data + (if |base| > offset + |data| then base[offset + |data|..] else [])
  }

  /** What the copy has achieved by the time it has counted `offset` bytes. */
  ghost predicate Progress(src: seq<byte>, dst: seq<byte>, offset: nat) {
    && offset <= |dst| <= |src|
    && dst[..offset] == src[..offset]
  }

  /** A write at `offset` whose first bytes are the source's next ones, and which stays within the source's size. */
  lemma WriteProgress(src: seq<byte>, dst: seq<byte>, offset: nat, n: nat, data: seq<byte>)
    requires Progress(src, dst, offset)
    requires offset + |data| <= |src|
    requires n <= |data| && data[..n] == src[offset..offset + n]
    ensures Progress(src, Pwrite(dst, offset, data), offset + n)
  {
    if data != [] {
      var dst' := Pwrite(dst, offset, data);
      assert dst'[..offset + n] == dst[..offset] + data[..n];
      assert src[..offset + n] == src[..offset] + src[offset..offset + n];
    }
  }

  /** A write that ends in an error or too soon still leaves the bytes before `offset` and the length in order. */
  lemma FailedWriteProgress(src: seq<byte>, dst: seq<byte>, offset: nat, data: seq<byte>)
    requires Progress(src, dst, offset)
    requires offset + |data| <= |src|
    ensures Progress(src, Pwrite(dst, offset, data), offset)
  {
    if data != [] {
      assert Pwrite(dst, offset, data)[..offset] == dst[..offset];
    }
  }

  /** Where the copy stands: the destination, the bytes counted, and the reused buffer. */
  datatype Copy = Copy(dst: seq<byte>, offset: nat, buffer: seq<byte>)

  ghost predicate InRange(src: seq<byte>, c: Copy) {
    c.offset <= |src| && |c.buffer| == FILE_BLOCK_SIZE
  }

  /** A read of `bytesRead` bytes into the buffer and a write of `written` bytes out of it. */
  function Transfer(src: seq<byte>, c: Copy, bytesRead: nat, written: int): (r: Copy)
    requires InRange(src, c) && bytesRead <= BytesToRead(|src|, c.offset) && written <= BytesToRead(|src|, c.offset)
    ensures InRange(src, r)
  {
    var buffer := src[c.offset..c.offset + bytesRead] + c.buffer[bytesRead..];
    Copy(if written > 0 then Pwrite(c.dst, c.offset, buffer[..written]) else c.dst, c.offset, buffer)
  }

  /** A round of the loop; Pending means that the loop goes on. */
  function OneRound(src: seq<byte>, c: Copy, round: Round): (r: (Outcome, Copy))
    requires InRange(src, c) && c.offset < |src|
    ensures InRange(src, r.1)
  {
    var request := BytesToRead(|src|, c.offset);
    var bytesRead, written := Min(round.readRes, request), Min(round.writeRes, request);
    if bytesRead < 0 then (ReadFailed, c)
    else
      var c' := Transfer(src, c, bytesRead, written);
      if written < bytesRead then (WriteFailed, c') else (Pending, c'.(offset := c.offset + bytesRead))
  }

  /** The loop, bytes and all. */
  function CopyRun(src: seq<byte>, c: Copy, schedule: seq<Round>): (r: (Outcome, Copy))
    requires InRange(src, c)
    ensures InRange(src, r.1)
    decreases |schedule|
  {
    if c.offset == |src| then (Done, c)
    else if schedule == [] then (Pending, c)
    else
      var (outcome, c') := OneRound(src, c, schedule[0]);
      if outcome.Pending? then CopyRun(src, c', schedule[1..]) else (outcome, c')
  }

  /** One round's transfer damages nothing already copied, and extends it if the write covers the read. */
  lemma TransferProgress(src: seq<byte>, c: Copy, bytesRead: nat, written: int)
    requires InRange(src, c) && bytesRead <= BytesToRead(|src|, c.offset) && written <= BytesToRead(|src|, c.offset)
    requires Progress(src, c.dst, c.offset)
    ensures Progress(src, Transfer(src, c, bytesRead, written).dst, c.offset)
    ensures bytesRead <= written ==> Progress(src, Transfer(src, c, bytesRead, written).dst, c.offset + bytesRead)
  {
    var buffer := Transfer(src, c, bytesRead, written).buffer;
    if written > 0 {
      FailedWriteProgress(src, c.dst, c.offset, buffer[..written]);
      if bytesRead <= written {
        assert buffer[..written][..bytesRead] == src[c.offset..c.offset + bytesRead];
        WriteProgress(src, c.dst, c.offset, bytesRead, buffer[..written]);
      }
    }
  }

  /**
   Whatever the kernel's results, the destination agrees with the source up to the offset and never outgrows it; when
   the loop is done it is the source. Stale bytes in the buffer affect neither this nor how the loop goes.
   */
  lemma {:induction false} CopyRunProgress(src: seq<byte>, c: Copy, schedule: seq<Round>)
    requires InRange(src, c) && Progress(src, c.dst, c.offset)
    ensures var (outcome, end) := CopyRun(src, c, schedule);
            && Progress(src, end.dst, end.offset)
            && (outcome.Done? ==> end.dst == src)
            && (outcome, end.offset) == Plan(|src|, c.offset, schedule)
    decreases |schedule|
  {
    if c.offset == |src| {
      assert src[..c.offset] == src && c.dst[..c.offset] == c.dst;
    } else if schedule != [] {
      RoundProgress(src, c, schedule[0]);
      if OneRound(src, c, schedule[0]).0.Pending? {
        CopyRunProgress(src, OneRound(src, c, schedule[0]).1, schedule[1..]);
      }
    }
  }

  lemma RoundProgress(src: seq<byte>, c: Copy, round: Round)
    requires InRange(src, c) && c.offset < |src| && Progress(src, c.dst, c.offset)
    ensures var c' := OneRound(src, c, round).1;
            Progress(src, c'.dst, c'.offset)
  {
    var request := BytesToRead(|src|, c.offset);
    var bytesRead, written := Min(round.readRes, request), Min(round.writeRes, request);
    if bytesRead >= 0 {
      TransferProgress(src, c, bytesRead, written);
    }
  }

  /** The loop. `buffer` starts with anything in it. */
  method CopyLoop(src: seq<byte>, buffer: array<byte>, schedule: seq<Round>)
    returns (outcome: Outcome, dst: seq<byte>, offset: nat)
    requires buffer.Length == FILE_BLOCK_SIZE
    modifies buffer
    ensures (outcome, Copy(dst, offset, buffer[..])) == CopyRun(src, Copy([], 0, old(buffer[..])), schedule)
    ensures Progress(src, dst, offset)
    ensures outcome.Done? ==> dst == src
  {
    dst, offset := [], 0;
    ghost var start := Copy([], 0, buffer[..]);
    CopyRunProgress(src, start, schedule);
    var k := 0;
    while offset < |src|
      invariant 0 <= k && GoesOn(src, start, schedule, Copy(dst, offset, buffer[..]), k)
      decreases |schedule| - k
    {
      if k == |schedule| {
        return Pending, dst, offset;
      }
      RoundAt(src, start, schedule, Copy(dst, offset, buffer[..]), k);
      outcome, dst, offset := ReadAndWrite(src, dst, offset, buffer, schedule[k]);
      if !outcome.Pending? {
        return;
      }
      k := k + 1;
    }
    outcome := Done;
  }

  /** After `k` rounds the loop is at `c`, and the run from there is the rest of the whole run. */
  ghost predicate GoesOn(src: seq<byte>, start: Copy, schedule: seq<Round>, c: Copy, k: nat)
    requires InRange(src, start)
  {
    InRange(src, c) && k <= |schedule| && CopyRun(src, c, schedule[k..]) == CopyRun(src, start, schedule)
  }

  lemma RoundAt(src: seq<byte>, start: Copy, schedule: seq<Round>, c: Copy, k: nat)
    requires InRange(src, start) && GoesOn(src, start, schedule, c, k) && c.offset < |src| && k < |schedule|
    ensures var r := OneRound(src, c, schedule[k]);
            if r.0.Pending? then GoesOn(src, start, schedule, r.1, k + 1) else CopyRun(src, start, schedule) == r
  {
    var rest := schedule[k..];
    assert rest[0] == schedule[k] && rest[1..] == schedule[k + 1..];
  }

  /** A round: a read into the buffer, and a write of what is then in it. */
  method ReadAndWrite(src: seq<byte>, dst: seq<byte>, offset: nat, buffer: array<byte>, round: Round)
    returns (outcome: Outcome, dst': seq<byte>, offset': nat)
    requires offset < |src| && buffer.Length == FILE_BLOCK_SIZE
    modifies buffer
    ensures (outcome, Copy(dst', offset', buffer[..])) == OneRound(src, Copy(dst, offset, old(buffer[..])), round)
  {
    dst', offset' := dst, offset;
    var bytesToRead := BytesToRead(|src|, offset);
    var bytesRead := Min(round.readRes, bytesToRead);
    if bytesRead < 0 {
      return ReadFailed, dst', offset';
    }
    var written := Min(round.writeRes, bytesToRead);
    ghost var after := Transfer(src, Copy(dst, offset, buffer[..]), bytesRead, written);
    ReadInto(buffer, src[offset..offset + bytesRead]);
    assert buffer[..] == after.buffer;
    if written > 0 {
      var sent := buffer[..written];
      assert sent == after.buffer[..written];
      dst' := Pwrite(dst, offset, sent);
    }
    if written < bytesRead {
      return WriteFailed, dst', offset';
    }
    return Pending, dst', offset + bytesRead;
  }

  /** The kernel's read: the bytes behind those read keep what earlier rounds left there. */
  method ReadInto(buffer: array<byte>, data: seq<byte>)
    requires |data| <= buffer.Length
    modifies buffer
    ensures buffer[..] == data + old(buffer[..])[|data|..]
  {
    forall i | 0 <= i < |data| {
      buffer[i] := data[i];
    }
  }

  // ---------------------------------------------------------------- when the loop ends

  /** No read fails and every write covers what was read. */
  ghost predicate ErrorFree(schedule: seq<Round>) {
    forall k :: 0 <= k < |schedule| ==> 0 <= schedule[k].readRes <= schedule[k].writeRes
  }

  /** The most the reads of a schedule can bring. */
  function Supply(schedule: seq<Round>): int {
    if schedule == [] then 0 else Min(schedule[0].readRes, FILE_BLOCK_SIZE) + Supply(schedule[1..])
  }

  lemma {:induction false} SupplyIsNat(schedule: seq<Round>)
    requires ErrorFree(schedule)
    ensures Supply(schedule) >= 0
  {
    if schedule != [] {
      SupplyIsNat(schedule[1..]);
    }
  }

  /** At `offset` the round's read does not fail and its write covers what is read; at the end there is no round. */
  ghost predicate FineAt(size: nat, offset: int, round: Round) {
    0 <= offset < size ==>
      && 0 <= round.readRes
      && Min(round.readRes, BytesToRead(size, offset)) <= Min(round.writeRes, BytesToRead(size, offset))
  }

  /** So are the first `n` rounds, each at the offset that those before it have led to. */
  ghost predicate FineUpTo(size: nat, offset: int, schedule: seq<Round>, n: nat)
    requires n <= |schedule|
  {
    forall k :: 0 <= k < n ==> FineAt(size, offset + Supply(schedule[..k]), schedule[k])
  }

  lemma FineCons(size: nat, offset: int, schedule: seq<Round>, n: nat)
    requires 1 <= n <= |schedule|
    ensures var next := offset + Min(schedule[0].readRes, FILE_BLOCK_SIZE);
            && (FineUpTo(size, offset, schedule, n)
                <==> FineAt(size, offset, schedule[0]) && FineUpTo(size, next, schedule[1..], n - 1))
            && offset + Supply(schedule[..n]) == next + Supply(schedule[1..][..n - 1])
  {
    forall k | 1 <= k <= n
      ensures Supply(schedule[..k]) == Min(schedule[0].readRes, FILE_BLOCK_SIZE) + Supply(schedule[1..][..k - 1])
    {
      assert schedule[..k][1..] == schedule[1..][..k - 1];
    }
    var next := offset + Min(schedule[0].readRes, FILE_BLOCK_SIZE);
    if FineUpTo(size, offset, schedule, n) {
      assert FineAt(size, offset + Supply(schedule[..0]), schedule[0]);
      forall k | 0 <= k < n - 1
        ensures FineAt(size, next + Supply(schedule[1..][..k]), schedule[1..][k])
      {
        assert FineAt(size, offset + Supply(schedule[..k + 1]), schedule[k + 1]);
      }
    }
    if FineAt(size, offset, schedule[0]) && FineUpTo(size, next, schedule[1..], n - 1) {
      forall k | 0 <= k < n
        ensures FineAt(size, offset + Supply(schedule[..k]), schedule[k])
      {
        assert k > 0 ==> FineAt(size, next + Supply(schedule[1..][..k - 1]), schedule[1..][k - 1]);
      }
    }
  }

  /** Some number of rounds, each of them fine, brings all the bytes that are missing. */
  ghost predicate Suffices(size: nat, offset: int, schedule: seq<Round>) {
    exists n :: 0 <= n <= |schedule| && FineUpTo(size, offset, schedule, n) && offset + Supply(schedule[..n]) >= size
  }

  lemma SufficesCons(size: nat, offset: nat, schedule: seq<Round>)
    requires offset < size && schedule != []
    ensures Suffices(size, offset, schedule)
       <==> FineAt(size, offset, schedule[0])
            && Suffices(size, offset + Min(schedule[0].readRes, FILE_BLOCK_SIZE), schedule[1..])
  {
    var next := offset + Min(schedule[0].readRes, FILE_BLOCK_SIZE);
    if Suffices(size, offset, schedule) {
      var n :| 0 <= n <= |schedule| && FineUpTo(size, offset, schedule, n) && offset + Supply(schedule[..n]) >= size;
      FineCons(size, offset, schedule, n);
    }
    if FineAt(size, offset, schedule[0]) && Suffices(size, next, schedule[1..]) {
      var n :| 0 <= n < |schedule| && FineUpTo(size, next, schedule[1..], n)
               && next + Supply(schedule[1..][..n]) >= size;
      FineCons(size, offset, schedule, n + 1);
    }
  }

  /** Whatever the schedule, the copy is done if and only if fine rounds at its start bring all that is missing. */
  lemma {:induction false} DoneIff(size: nat, offset: nat, schedule: seq<Round>)
    requires offset <= size
    ensures Plan(size, offset, schedule).0.Done? <==> Suffices(size, offset, schedule)
    decreases |schedule|
  {
    if offset == size {
      assert FineUpTo(size, offset, schedule, 0);
    } else if schedule != [] {
      SufficesCons(size, offset, schedule);
      var bytesRead := Min(schedule[0].readRes, BytesToRead(size, offset));
      if FineAt(size, offset, schedule[0]) {
        DoneIff(size, offset + bytesRead, schedule[1..]);
        if offset + bytesRead == size {
          assert FineUpTo(size, offset + Min(schedule[0].readRes, FILE_BLOCK_SIZE), schedule[1..], 0);
        }
      }
    }
  }

  /** The first `n` rounds are fine and none of them has brought the last byte, so that the loop is still running. */
  ghost predicate RunsOn(size: nat, offset: int, schedule: seq<Round>, n: nat)
    requires n <= |schedule|
  {
    FineUpTo(size, offset, schedule, n) && forall k :: 0 <= k <= n ==> offset + Supply(schedule[..k]) < size
  }

  /** In the round after that the read fails. */
  ghost predicate ReadFails(size: nat, offset: int, schedule: seq<Round>, n: nat) {
    n < |schedule| && RunsOn(size, offset, schedule, n) && schedule[n].readRes < 0
  }

  /** In the round after that the read succeeds and the write is shorter, or fails. */
  ghost predicate WriteFails(size: nat, offset: int, schedule: seq<Round>, n: nat) {
    && n < |schedule| && RunsOn(size, offset, schedule, n) && 0 <= schedule[n].readRes
    && !FineAt(size, offset + Supply(schedule[..n]), schedule[n])
  }

  lemma RunsOnCons(size: nat, offset: int, schedule: seq<Round>, n: nat)
    requires 1 <= n <= |schedule|
    ensures RunsOn(size, offset, schedule, n)
       <==> offset < size && FineAt(size, offset, schedule[0])
            && RunsOn(size, offset + Min(schedule[0].readRes, FILE_BLOCK_SIZE), schedule[1..], n - 1)
  {
    var next := offset + Min(schedule[0].readRes, FILE_BLOCK_SIZE);
    FineCons(size, offset, schedule, n);
    forall k | 1 <= k <= n
      ensures offset + Supply(schedule[..k]) == next + Supply(schedule[1..][..k - 1])
    {
      FineCons(size, offset, schedule, k);
    }
    if RunsOn(size, offset, schedule, n) {
      assert offset + Supply(schedule[..0]) < size;
      forall k | 0 <= k <= n - 1
        ensures next + Supply(schedule[1..][..k]) < size
      {
        assert offset + Supply(schedule[..k + 1]) < size;
      }
    }
    if offset < size && RunsOn(size, next, schedule[1..], n - 1) {
      forall k | 0 <= k <= n
        ensures offset + Supply(schedule[..k]) < size
      {
        assert k > 0 ==> next + Supply(schedule[1..][..k - 1]) < size;
      }
    }
  }

  /** A round that the loop survives. */
  lemma PlanStep(size: nat, offset: nat, schedule: seq<Round>)
    requires offset < size && schedule != [] && FineAt(size, offset, schedule[0])
    requires offset + Min(schedule[0].readRes, FILE_BLOCK_SIZE) < size
    ensures Plan(size, offset, schedule)
         == Plan(size, offset + Min(schedule[0].readRes, FILE_BLOCK_SIZE), schedule[1..])
  {
  }

  lemma PlanStops(size: nat, offset: nat, schedule: seq<Round>)
    requires offset < size
    ensures schedule == [] ==> Plan(size, offset, schedule) == (Pending, offset)
    ensures schedule != [] && schedule[0].readRes < 0 ==> Plan(size, offset, schedule) == (ReadFailed, offset)
    ensures schedule != [] && 0 <= schedule[0].readRes && !FineAt(size, offset, schedule[0]) ==>
              Plan(size, offset, schedule) == (WriteFailed, offset)
  {
  }

  /** Where the loop is after `n` rounds that it survives decides how it ends. */
  lemma {:induction false} PlanAfter(size: nat, offset: nat, schedule: seq<Round>, n: nat)
    requires offset <= size && n <= |schedule| && RunsOn(size, offset, schedule, n)
    ensures 0 <= offset + Supply(schedule[..n]) < size
    ensures Plan(size, offset, schedule) == Plan(size, offset + Supply(schedule[..n]), schedule[n..])
    decreases n
  {
    assert offset + Supply(schedule[..0]) < size;
    if n == 0 {
      assert schedule[0..] == schedule;
    } else {
      RunsOnCons(size, offset, schedule, n);
      FineCons(size, offset, schedule, n);
      assert offset + Supply(schedule[..1]) < size && schedule[..1][1..] == [];
      PlanStep(size, offset, schedule);
      PlanAfter(size, offset + Min(schedule[0].readRes, FILE_BLOCK_SIZE), schedule[1..], n - 1);
      assert schedule[1..][n - 1..] == schedule[n..];
    }
  }

  lemma EndsAfter(size: nat, offset: nat, schedule: seq<Round>, n: nat)
    requires offset <= size && n <= |schedule| && RunsOn(size, offset, schedule, n)
    ensures 0 <= offset + Supply(schedule[..n]) < size
    ensures n == |schedule| ==> Plan(size, offset, schedule) == (Pending, offset + Supply(schedule[..n]))
    ensures ReadFails(size, offset, schedule, n) ==>
              Plan(size, offset, schedule) == (ReadFailed, offset + Supply(schedule[..n]))
    ensures WriteFails(size, offset, schedule, n) ==>
              Plan(size, offset, schedule) == (WriteFailed, offset + Supply(schedule[..n]))
  {
    PlanAfter(size, offset, schedule, n);
    PlanStops(size, offset + Supply(schedule[..n]), schedule[n..]);
  }

  /** A loop that is not done has stopped at a round that is not fine, or at the end of the schedule. */
  lemma {:induction false} StopsAt(size: nat, offset: nat, schedule: seq<Round>) returns (n: nat)
    requires offset <= size && !Plan(size, offset, schedule).0.Done?
    ensures n <= |schedule| && RunsOn(size, offset, schedule, n)
    ensures n < |schedule| ==> ReadFails(size, offset, schedule, n) || WriteFails(size, offset, schedule, n)
    decreases |schedule|
  {
    n := 0;
    if schedule != [] && FineAt(size, offset, schedule[0]) {
      var next := offset + Min(schedule[0].readRes, FILE_BLOCK_SIZE);
      var m := StopsAt(size, next, schedule[1..]);
      n := m + 1;
      RunsOnCons(size, offset, schedule, n);
      FineCons(size, offset, schedule, n);
    }
  }

  /**
   Whatever the schedule: the loop dies of a read if and only if the first round that is not fine comes before the end
   and its read fails, of a write if and only if that round's read succeeds and its write falls short of it, and it is
   still running if and only if all rounds are fine and have not brought the last byte.
   */
  lemma OutcomeIff(size: nat, offset: nat, schedule: seq<Round>)
    requires offset <= size
    ensures Plan(size, offset, schedule).0.ReadFailed? <==> exists n: nat :: ReadFails(size, offset, schedule, n)
    ensures Plan(size, offset, schedule).0.WriteFailed? <==> exists n: nat :: WriteFails(size, offset, schedule, n)
    ensures Plan(size, offset, schedule).0.Pending? <==> RunsOn(size, offset, schedule, |schedule|)
  {
    if n: nat :| ReadFails(size, offset, schedule, n) {
      EndsAfter(size, offset, schedule, n);
    }
    if n: nat :| WriteFails(size, offset, schedule, n) {
      EndsAfter(size, offset, schedule, n);
    }
    if RunsOn(size, offset, schedule, |schedule|) {
      EndsAfter(size, offset, schedule, |schedule|);
    }
    if !Plan(size, offset, schedule).0.Done? {
      var n := StopsAt(size, offset, schedule);
      EndsAfter(size, offset, schedule, n);
    }
  }

  /** Without errors that is a matter of the reads alone, and a loop that is not done is as far as they brought it. */
  lemma {:induction false} ErrorFreeDoneIff(size: nat, offset: nat, schedule: seq<Round>)
    requires offset <= size && ErrorFree(schedule)
    ensures Plan(size, offset, schedule).0.Done? <==> Supply(schedule) >= size - offset
    ensures !Plan(size, offset, schedule).0.Done? ==>
              Plan(size, offset, schedule) == (Pending, offset + Supply(schedule))
    decreases |schedule|
  {
    SupplyIsNat(schedule);
    if offset < size && schedule != [] {
      var bytesRead := Min(schedule[0].readRes, BytesToRead(size, offset));
      SupplyIsNat(schedule[1..]);
      ErrorFreeDoneIff(size, offset + bytesRead, schedule[1..]);
    }
  }

  lemma {:induction false} EnoughRounds(schedule: seq<Round>)
    requires ErrorFree(schedule) && forall k :: 0 <= k < |schedule| ==> schedule[k].readRes >= 1
    ensures Supply(schedule) >= |schedule|
  {
    if schedule != [] {
      EnoughRounds(schedule[1..]);
    }
  }

  /** If every read before the end brings at least a byte, as many rounds as the file has bytes are enough. */
  lemma AlwaysEnds(size: nat, schedule: seq<Round>)
    requires ErrorFree(schedule) && forall k :: 0 <= k < |schedule| ==> schedule[k].readRes >= 1
    requires |schedule| >= size
    ensures Plan(size, 0, schedule).0.Done?
  {
    EnoughRounds(schedule);
    ErrorFreeDoneIff(size, 0, schedule);
  }

  lemma {:induction false} FullSupply(schedule: seq<Round>)
    requires forall k :: 0 <= k < |schedule| ==> schedule[k].readRes >= 4096
    ensures Supply(schedule) == 4096 * |schedule|
  {
    if schedule != [] {
      FullSupply(schedule[1..]);
    }
  }

  /** If every read brings a whole block, the copy is done exactly when there are as many rounds as blocks. */
  lemma FullReadsDoneIff(size: nat, schedule: seq<Round>)
    requires ErrorFree(schedule) && forall k :: 0 <= k < |schedule| ==> schedule[k].readRes >= 4096
    ensures Plan(size, 0, schedule).0.Done? <==> 4096 * |schedule| >= size
  {
    FullSupply(schedule);
    ErrorFreeDoneIff(size, 0, schedule);
  }

  /** Empty reads make no headway: a loop that gets only those never ends, however long it runs. */
  lemma EmptyReadsNeverEnd(size: nat, schedule: seq<Round>)
    requires size > 0 && ErrorFree(schedule) && forall k :: 0 <= k < |schedule| ==> schedule[k].readRes == 0
    ensures Plan(size, 0, schedule) == (Pending, 0)
  {
    NoSupply(schedule);
    ErrorFreeDoneIff(size, 0, schedule);
  }

  lemma {:induction false} NoSupply(schedule: seq<Round>)
    requires forall k :: 0 <= k < |schedule| ==> schedule[k].readRes == 0
    ensures Supply(schedule) == 0
  {
    if schedule != [] {
      NoSupply(schedule[1..]);
    }
  }

  /** The bytes of a round's write that its own read did not bring, as the source has them. */
  ghost predicate StaleMatches(src: seq<byte>, c: Copy, bytesRead: nat, written: int)
    requires InRange(src, c) && bytesRead <= BytesToRead(|src|, c.offset) && written <= BytesToRead(|src|, c.offset)
  {
    bytesRead < written ==> c.buffer[bytesRead..written] == src[c.offset + bytesRead..c.offset + written]
  }

  /** What the destination held behind the end of the write, as the source has it. */
  ghost predicate BehindMatches(src: seq<byte>, c: Copy, written: int)
    requires InRange(src, c) && |c.dst| <= |src| && written <= BytesToRead(|src|, c.offset)
  {
    var end := if written > 0 then c.offset + written else c.offset;
    end < |c.dst| ==> c.dst[end..] == src[end..|c.dst|]
  }

  /**
   In mid-copy, from any state that the loop can be in, the destination is a prefix of the source after a round exactly
   when the stale bytes that went out behind a short read are the source's own and so is what earlier rounds had left
   behind the end of this write.
   */
  lemma PrefixIff(src: seq<byte>, c: Copy, bytesRead: nat, written: int)
    requires InRange(src, c) && bytesRead <= BytesToRead(|src|, c.offset) && written <= BytesToRead(|src|, c.offset)
    requires Progress(src, c.dst, c.offset)
    ensures Transfer(src, c, bytesRead, written).dst <= src
       <==> StaleMatches(src, c, bytesRead, written) && BehindMatches(src, c, written)
  {
    if written <= 0 {
      PrefixBehind(src, c.dst, c.offset);
    } else {
      var sent := Transfer(src, c, bytesRead, written).buffer[..written];
      SentIsOwnIff(src, c, bytesRead, written);
      PwriteIsPrefixIff(src, c.dst, c.offset, sent);
    }
  }

  /** A destination that agrees up to `offset` is a prefix exactly when it agrees from there on. */
  lemma PrefixBehind(src: seq<byte>, dst: seq<byte>, offset: nat)
    requires Progress(src, dst, offset)
    ensures dst <= src <==> dst[offset..] == src[offset..|dst|]
  {
    assert dst == dst[..offset] + dst[offset..];
    Slices(src, 0, offset, |dst|);
  }

  /** A write sends the source's bytes exactly when the stale ones among them are the source's. */
  lemma SentIsOwnIff(src: seq<byte>, c: Copy, bytesRead: nat, written: nat)
    requires InRange(src, c) && bytesRead <= BytesToRead(|src|, c.offset) && written <= BytesToRead(|src|, c.offset)
    ensures Transfer(src, c, bytesRead, written).buffer[..written] == src[c.offset..c.offset + written]
       <==> StaleMatches(src, c, bytesRead, written)
  {
    StaleIff(src, c.buffer, c.offset, bytesRead, written);
  }

  lemma StaleIff(src: seq<byte>, buffer: seq<byte>, offset: nat, n: nat, w: nat)
    requires n <= |buffer| && w <= |buffer| && offset + n <= |src| && offset + w <= |src|
    ensures (src[offset..offset + n] + buffer[n..])[..w] == src[offset..offset + w]
       <==> (n < w ==> buffer[n..w] == src[offset + n..offset + w])
  {
    var read := src[offset..offset + n];
    if n < w {
      Slices(src, offset, offset + n, offset + w);
      assert (read + buffer[n..])[..w] == read + buffer[n..w];
      SameTail(read, buffer[n..w], src[offset + n..offset + w]);
    } else {
      assert (read + buffer[n..])[..w] == src[offset..offset + w];
    }
  }

  lemma SameTail(a: seq<byte>, b: seq<byte>, c: seq<byte>)
    ensures a + b == a + c <==> b == c
  {
    assert (a + b)[|a|..] == b && (a + c)[|a|..] == c;
  }

  /** After a write at `offset` the file is a prefix exactly when what was sent and what lies behind it agree. */
  lemma PwriteIsPrefixIff(src: seq<byte>, dst: seq<byte>, offset: nat, sent: seq<byte>)
    requires Progress(src, dst, offset) && sent != [] && offset + |sent| <= |src|
    ensures var end := offset + |sent|;
            (Pwrite(dst, offset, sent) <= src
             <==> sent == src[offset..end] && (end < |dst| ==> dst[end..] == src[end..|dst|]))
  {
    var end := offset + |sent|;
    var behind := if end < |dst| then dst[end..] else [];
    assert Pwrite(dst, offset, sent) == (dst[..offset] + sent) + behind;
    ThreeParts(src, dst[..offset], sent, behind);
  }

  lemma ThreeParts(src: seq<byte>, a: seq<byte>, b: seq<byte>, c: seq<byte>)
    requires |a| + |b| + |c| <= |src| && a == src[..|a|]
    ensures (a + b) + c <= src
       <==> b == src[|a|..|a| + |b|] && c == src[|a| + |b|..|a| + |b| + |c|]
  {
    var whole := (a + b) + c;
    var own := src[..|whole|];
    assert whole[|a|..|a| + |b|] == b && whole[|a| + |b|..] == c;
    assert own[|a|..|a| + |b|] == src[|a|..|a| + |b|] && own[|a| + |b|..] == src[|a| + |b|..|whole|];
    assert own == (own[..|a|] + own[|a|..|a| + |b|]) + own[|a| + |b|..];
  }

  /** A run of one round more. */
  lemma {:induction false} CopyRunSnoc(src: seq<byte>, c: Copy, front: seq<Round>, last: Round)
    requires InRange(src, c) && CopyRun(src, c, front).0.Pending?
    ensures CopyRun(src, c, front + [last]) == CopyRun(src, CopyRun(src, c, front).1, [last])
    decreases |front|
  {
    if front == [] {
      assert front + [last] == [last];
    } else {
      assert (front + [last])[1..] == front[1..] + [last];
      CopyRunSnoc(src, OneRound(src, c, front[0]).1, front[1..], last);
    }
  }

  // ---------------------------------------------------------------- what a run leaves, byte by byte

  /** What the round sends from `offset` on. */
  function Sent(size: nat, offset: nat, round: Round): nat
    requires offset <= size
  {
    if round.readRes < 0 || round.writeRes < 0 then 0 else Min(round.writeRes, BytesToRead(size, offset))
  }

  /** The byte at `j` of the buffer after the rounds: the last read that reached so far brought it, if any did. */
  function BufferByte(src: seq<byte>, buffer: seq<byte>, rounds: seq<Round>, j: nat): byte
    requires j < |buffer|
  {
    if rounds == [] then buffer[j] else
      var front, last := rounds[..|rounds| - 1], rounds[|rounds| - 1];
      var offset := Plan(|src|, 0, front).1;
      if j < Min(last.readRes, BytesToRead(|src|, offset)) then src[offset + j] else BufferByte(src, buffer, front, j)
  }

  /** The byte at `p` of the destination: the last write that reached it took it out of the buffer as it was then. */
  function FileByte(src: seq<byte>, buffer: seq<byte>, rounds: seq<Round>, p: nat): byte
    requires |buffer| == FILE_BLOCK_SIZE
  {
    if rounds == [] then 0 else
      var front, last := rounds[..|rounds| - 1], rounds[|rounds| - 1];
      var offset := Plan(|src|, 0, front).1;
      if offset <= p < offset + Sent(|src|, offset, last) then BufferByte(src, buffer, rounds, p - offset)
      else FileByte(src, buffer, front, p)
  }

  /** How far the writes have reached. */
  function Extent(size: nat, rounds: seq<Round>): nat {
    if rounds == [] then 0 else
      var front, last := rounds[..|rounds| - 1], rounds[|rounds| - 1];
      var offset := Plan(size, 0, front).1;
      var before, sent := Extent(size, front), Sent(size, offset, last);
      if sent > 0 && offset + sent > before then offset + sent else before
  }

  /** All the rounds take place: the loop is still running before the last. */
  ghost predicate AllTaken(size: nat, rounds: seq<Round>) {
    rounds == [] || Plan(size, 0, rounds[..|rounds| - 1]).0.Pending?
  }

  lemma {:induction false} PlanPrefix(size: nat, offset: nat, front: seq<Round>, last: Round)
    requires offset <= size && Plan(size, offset, front + [last]).0.Pending?
    ensures Plan(size, offset, front).0.Pending?
    decreases |front|
  {
    if front != [] {
      assert (front + [last])[1..] == front[1..] + [last];
      PlanPrefix(size, offset + Min(front[0].readRes, BytesToRead(size, offset)), front[1..], last);
    }
  }

  lemma PwriteByte(file: seq<byte>, offset: nat, data: seq<byte>, p: nat)
    requires offset <= |file| && data != []
    ensures |Pwrite(file, offset, data)| == if offset + |data| > |file| then offset + |data| else |file|
    ensures p < |Pwrite(file, offset, data)| ==>
              Pwrite(file, offset, data)[p] == if offset <= p < offset + |data| then data[p - offset] else file[p]
  {
  }

  /** What one round does to a byte of the buffer and to one of the destination. */
  lemma BufferAfter(src: seq<byte>, c: Copy, round: Round, j: nat)
    requires InRange(src, c) && c.offset < |src| && j < FILE_BLOCK_SIZE
    ensures OneRound(src, c, round).1.buffer[j]
         == if j < Min(round.readRes, BytesToRead(|src|, c.offset)) then src[c.offset + j] else c.buffer[j]
  {
    var n := Min(round.readRes, BytesToRead(|src|, c.offset));
    if n >= 0 {
      var read, rest := src[c.offset..c.offset + n], c.buffer[n..];
      assert OneRound(src, c, round).1.buffer == read + rest;
      assert (read + rest)[j] == if j < n then read[j] else rest[j - n];
    }
  }

  lemma FileAfter(src: seq<byte>, c: Copy, round: Round, p: nat)
    requires InRange(src, c) && c.offset < |src| && c.offset <= |c.dst|
    ensures var (c', sent) := (OneRound(src, c, round).1, Sent(|src|, c.offset, round));
            && |c'.dst| == (if sent > 0 && c.offset + sent > |c.dst| then c.offset + sent else |c.dst|)
            && (p < |c'.dst| ==>
                  c'.dst[p] == if c.offset <= p < c.offset + sent then c'.buffer[p - c.offset] else c.dst[p])
  {
    var sent := Sent(|src|, c.offset, round);
    if sent > 0 {
      SentBytes(src, c, round);
      PwriteByte(c.dst, c.offset, OneRound(src, c, round).1.buffer[..sent], p);
    }
  }

  lemma SentBytes(src: seq<byte>, c: Copy, round: Round)
    requires InRange(src, c) && c.offset < |src|
    ensures var (c', sent) := (OneRound(src, c, round).1, Sent(|src|, c.offset, round));
            c'.dst == if sent > 0 then Pwrite(c.dst, c.offset, c'.buffer[..sent]) else c.dst
  {
  }

  lemma AllTakenFront(size: nat, rounds: seq<Round>)
    requires rounds != [] && AllTaken(size, rounds)
    ensures AllTaken(size, rounds[..|rounds| - 1])
  {
    var front := rounds[..|rounds| - 1];
    if front != [] {
      assert front == front[..|front| - 1] + [front[|front| - 1]];
      PlanPrefix(size, 0, front[..|front| - 1], front[|front| - 1]);
    }
  }

  function After(src: seq<byte>, buffer: seq<byte>, rounds: seq<Round>): (c: Copy)
    requires |buffer| == FILE_BLOCK_SIZE
    ensures InRange(src, c)
  {
    CopyRun(src, Copy([], 0, buffer), rounds).1
  }

  /** The last round of a run. */
  lemma LastRound(src: seq<byte>, buffer: seq<byte>, rounds: seq<Round>)
    requires |buffer| == FILE_BLOCK_SIZE && rounds != [] && AllTaken(|src|, rounds)
    ensures var (m, last) := (After(src, buffer, rounds[..|rounds| - 1]), rounds[|rounds| - 1]);
            && m.offset == Plan(|src|, 0, rounds[..|rounds| - 1]).1 && m.offset < |src|
            && Progress(src, m.dst, m.offset)
            && After(src, buffer, rounds) == OneRound(src, m, last).1
  {
    var start, front, last := Copy([], 0, buffer), rounds[..|rounds| - 1], rounds[|rounds| - 1];
    assert rounds == front + [last];
    CopyRunProgress(src, start, front);
    CopyRunSnoc(src, start, front, last);
    PendingIsUnfinished(src, start, front);
    OnlyRound(src, After(src, buffer, front), last);
  }

  lemma OnlyRound(src: seq<byte>, m: Copy, round: Round)
    requires InRange(src, m) && m.offset < |src|
    ensures CopyRun(src, m, [round]).1 == OneRound(src, m, round).1
  {
    var (outcome, c') := OneRound(src, m, round);
    assert [round][1..] == [] && (outcome.Pending? ==> CopyRun(src, c', []).1 == c');
  }

  /** After any rounds, each byte of the buffer is the one that the rule names. */
  lemma {:induction false} CopyRunBuffer(src: seq<byte>, buffer: seq<byte>, rounds: seq<Round>, j: nat)
    requires |buffer| == FILE_BLOCK_SIZE && AllTaken(|src|, rounds) && j < FILE_BLOCK_SIZE
    ensures After(src, buffer, rounds).buffer[j] == BufferByte(src, buffer, rounds, j)
    decreases |rounds|
  {
    if rounds != [] {
      var front, last := rounds[..|rounds| - 1], rounds[|rounds| - 1];
      AllTakenFront(|src|, rounds);
      CopyRunBuffer(src, buffer, front, j);
      LastRound(src, buffer, rounds);
      BufferAfter(src, After(src, buffer, front), last, j);
    }
  }

  /** So is each byte of the destination, and the writes have made it as long as they reach. */
  lemma {:induction false} CopyRunBytes(src: seq<byte>, buffer: seq<byte>, rounds: seq<Round>, p: nat)
    requires |buffer| == FILE_BLOCK_SIZE && AllTaken(|src|, rounds)
    ensures |After(src, buffer, rounds).dst| == Extent(|src|, rounds)
    ensures p < Extent(|src|, rounds) ==> After(src, buffer, rounds).dst[p] == FileByte(src, buffer, rounds, p)
    decreases |rounds|
  {
    if rounds != [] {
      var front, last := rounds[..|rounds| - 1], rounds[|rounds| - 1];
      AllTakenFront(|src|, rounds);
      CopyRunBytes(src, buffer, front, p);
      LastRound(src, buffer, rounds);
      var m := After(src, buffer, front);
      FileAfter(src, m, last, p);
      if m.offset <= p < m.offset + Sent(|src|, m.offset, last) {
        CopyRunBuffer(src, buffer, rounds, p - m.offset);
      }
    }
  }

  /**
   Whole runs, in terms of the kernel's results and the first buffer alone: after any rounds the destination is a
   prefix of the source if and only if every byte that the writes have put behind the offset is the source's own.
   */
  lemma CopyRunPrefixIff(src: seq<byte>, buffer: seq<byte>, rounds: seq<Round>)
    requires |buffer| == FILE_BLOCK_SIZE && AllTaken(|src|, rounds)
    ensures Extent(|src|, rounds) <= |src|
    ensures After(src, buffer, rounds).dst <= src
       <==> forall p :: Plan(|src|, 0, rounds).1 <= p < Extent(|src|, rounds) ==>
              FileByte(src, buffer, rounds, p) == src[p]
  {
    var dst, offset := After(src, buffer, rounds).dst, After(src, buffer, rounds).offset;
    AfterProgress(src, buffer, rounds);
    CopyRunBytes(src, buffer, rounds, 0);
    PrefixBytes(src, dst, offset);
    forall p | offset <= p < |dst|
      ensures dst[p] == FileByte(src, buffer, rounds, p)
    {
      CopyRunBytes(src, buffer, rounds, p);
    }
  }

  lemma AfterProgress(src: seq<byte>, buffer: seq<byte>, rounds: seq<Round>)
    requires |buffer| == FILE_BLOCK_SIZE
    ensures var c := After(src, buffer, rounds);
            Progress(src, c.dst, c.offset) && c.offset == Plan(|src|, 0, rounds).1
  {
    CopyRunProgress(src, Copy([], 0, buffer), rounds);
  }

  lemma PrefixBytes(src: seq<byte>, dst: seq<byte>, offset: nat)
    requires Progress(src, dst, offset)
    ensures dst <= src <==> forall p :: offset <= p < |dst| ==> dst[p] == src[p]
  {
    PrefixBehind(src, dst, offset);
    assert forall p :: offset <= p < |dst| ==>
      dst[offset..][p - offset] == dst[p] && src[offset..|dst|][p - offset] == src[p];
  }

  lemma {:induction false} PendingIsUnfinished(src: seq<byte>, c: Copy, schedule: seq<Round>)
    requires InRange(src, c) && CopyRun(src, c, schedule).0.Pending?
    ensures CopyRun(src, c, schedule).1.offset < |src|
    decreases |schedule|
  {
    if schedule != [] {
      PendingIsUnfinished(src, OneRound(src, c, schedule[0]).1, schedule[1..]);
    }
  }

  /** It need not be: one byte of two read, and the stale one shows until the next round. */
  lemma StaleByteShows(a: byte, b: byte, buffer: seq<byte>)
    requires |buffer| == FILE_BLOCK_SIZE && buffer[1] != b
    ensures var c := CopyRun([a, b], Copy([], 0, buffer), [Round(1, 2)]).1;
            c.dst == [a, buffer[1]] && c.offset == 1
  {
    var c := Copy([], 0, buffer);
    OnlyRound([a, b], c, Round(1, 2));
    var r := Transfer([a, b], c, 1, 2);
    assert r.buffer[..2] == [a, buffer[1]];
    assert r.dst == [a, buffer[1]];
  }

  /** Nor need it be after a round that sends no stale byte: what an earlier one left behind still shows. */
  lemma LeftoverShows(a: byte, b: byte, d: byte, buffer: seq<byte>)
    requires |buffer| == FILE_BLOCK_SIZE && buffer[2] != d
    ensures var (outcome, c) := CopyRun([a, b, d], Copy([], 0, buffer), [Round(1, 3), Round(1, 1)]);
            outcome.Pending? && c.offset == 2 && c.dst == [a, b, buffer[2]]
  {
    var src := [a, b, d];
    var c := Copy([], 0, buffer);
    var (outcome, c1) := OneRound(src, c, Round(1, 3));
    assert Transfer(src, c, 1, 3).buffer[..3] == [a, buffer[1], buffer[2]];
    assert c1.dst == [a, buffer[1], buffer[2]] && c1.offset == 1;
    assert Transfer(src, c1, 1, 1).buffer[..1] == [b];
    assert Transfer(src, c1, 1, 1).dst == [a, b, buffer[2]];
    assert [Round(1, 3), Round(1, 1)][1..] == [Round(1, 1)] && [Round(1, 1)][1..] == [];
  }
}
