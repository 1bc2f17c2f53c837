/**
 example/omp_io_uring_polling.c: each file named on the command line is cut into blocks, read by one readv, and
 printed from its buffers when the completion at the head of the queue is a success. A failed completion is left at
 the head of the queue, where every later call finds it again.
 */
module Printer {
  import opened Words
  import opened Bytes
  import opened Blocks

  const BLOCK_SZ: nat := 1024

  /**
   A file named on the command line. `res` is what its readv returns, `memory` what the blocks that posix_memalign()
   hands out for it hold, end to end.
   */
  datatype File = Missing | File(content: seq<byte>, res: int, memory: seq<byte>)

  datatype Cqe = Cqe(res: int, fileSz: nat, iovecs: seq<Iovec<seq<byte>>>)

  ghost predicate Fits(f: File) {
    f.File? ==>
      && |f.content| < TWO_31
      && |f.memory| == (|f.content| + 1023) / 1024 * 1024
  }

  type Argument = f: File | Fits(f) witness Missing

  predicate Fails(f: File) {
    f.Missing? || f.res < 0
  }

  /** The first file from `i` on that cannot be opened or read. */
  function FirstFailure(files: seq<File>, i: nat): (n: nat)
    requires i <= |files|
    ensures i <= n <= |files|
    decreases |files| - i
  {
    if i == |files| || Fails(files[i]) then i else FirstFailure(files, i + 1)
  }

  ghost predicate FirstFailureAt(files: seq<File>, n: nat) {
    && n <= |files|
    && (forall i :: 0 <= i < n ==> !Fails(files[i]))
    && (n < |files| ==> Fails(files[n]))
  }

  lemma {:induction false} FirstFailureIs(files: seq<File>, i: nat)
    requires i <= |files| && forall k :: 0 <= k < i ==> !Fails(files[k])
    ensures FirstFailureAt(files, FirstFailure(files, i))
    decreases |files| - i
  {
    if i < |files| && !Fails(files[i]) {
      FirstFailureIs(files, i + 1);
    }
  }

  /** The bytes of a file: a missing one has none. */
  function Content(f: File): seq<byte> {
    if f.Missing? then [] else f.content
  }

  /** What a successful file prints: the bytes read, then what its memory held before in place of the rest. */
  function Shown(f: Argument): seq<byte>
    requires !Fails(f)
  {
    var n := Min(f.res, |f.content|);
    f.content[..n] + f.memory[n..|f.content|]
  }

  /** What the first `n` files show. */
  function AllShown(files: seq<Argument>, n: nat): seq<byte>
    requires n <= |files| && forall i :: 0 <= i < n ==> !Fails(files[i])
  {
    if n == 0 then [] else AllShown(files, n - 1) + Shown(files[n - 1])
  }

  /** After `i` rounds: all files shown so far, or stuck behind the first failure. */
  ghost predicate ShownUpTo(files: seq<Argument>, i: nat, stuck: bool, console: seq<byte>)
    requires i <= |files|
  {
    var good := FirstFailure(files, 0);
    && FirstFailureAt(files, good)
    && (stuck <==> good < i)
    && console == AllShown(files, if stuck then good else i)
  }

  lemma ShownUpToStep(files: seq<Argument>, i: nat, stuck: bool, console: seq<byte>)
    requires i < |files| && ShownUpTo(files, i, stuck, console)
    ensures stuck || Fails(files[i]) ==>
              ShownUpTo(files, i + 1, true, console) && console == AllShown(files, FirstFailure(files, 0))
    ensures !stuck && !Fails(files[i]) ==> ShownUpTo(files, i + 1, false, console + Shown(files[i]))
  {
  }

  /** The blocks. */
  function Cut(memory: seq<byte>): (blocks: seq<seq<byte>>)
    decreases |memory|
  {
    if |memory| < BLOCK_SZ then [] else [memory[..BLOCK_SZ]] + Cut(memory[BLOCK_SZ..])
  }

  /** The iovecs over fresh blocks describe as much of the memory as the file has bytes. */
  lemma {:induction false} CutGather(size: nat, memory: seq<byte>)
    requires |memory| == (size + BLOCK_SZ - 1) / BLOCK_SZ * BLOCK_SZ
    ensures |Cut(memory)| == |Lengths(size, BLOCK_SZ)| && AllOfLength(Cut(memory), BLOCK_SZ)
    ensures var iovs := IovecsFor(Lengths(size, BLOCK_SZ), Cut(memory));
            Sound(iovs) && size <= |memory| && Gather(iovs) == memory[..size]
    decreases size
  {
    if size > 0 {
      var n := Min(size, BLOCK_SZ);
      var rest := memory[BLOCK_SZ..];
      CutGather(size - n, rest);
      CutStep(size, memory, n);
    }
  }

  lemma CutStep(size: nat, memory: seq<byte>, n: nat)
    requires size > 0 && |memory| >= BLOCK_SZ && n == Min(size, BLOCK_SZ) && size <= |memory|
    requires |Cut(memory[BLOCK_SZ..])| == |Lengths(size - n, BLOCK_SZ)|
    requires AllOfLength(Cut(memory[BLOCK_SZ..]), BLOCK_SZ)
    requires var iovs := IovecsFor(Lengths(size - n, BLOCK_SZ), Cut(memory[BLOCK_SZ..]));
             Sound(iovs) && Gather(iovs) == memory[BLOCK_SZ..][..size - n]
    ensures |Cut(memory)| == |Lengths(size, BLOCK_SZ)| && AllOfLength(Cut(memory), BLOCK_SZ)
    ensures var iovs := IovecsFor(Lengths(size, BLOCK_SZ), Cut(memory));
            Sound(iovs) && Gather(iovs) == memory[..size]
  {
    var iovs := IovecsFor(Lengths(size, BLOCK_SZ), Cut(memory));
    var rest := IovecsFor(Lengths(size - n, BLOCK_SZ), Cut(memory[BLOCK_SZ..]));
    assert iovs == [Iovec(n, memory[..BLOCK_SZ])] + rest;
    assert iovs[1..] == rest;
    assert memory[..BLOCK_SZ][..n] + memory[BLOCK_SZ..][..size - n] == memory[..size];
  }

  lemma FreshBuffers(f: Argument)
    requires f.File?
    ensures |Cut(f.memory)| == |Lengths(|f.content|, BLOCK_SZ)|
    ensures var iovs := IovecsFor(Lengths(|f.content|, BLOCK_SZ), Cut(f.memory));
            IsSplit(|f.content|, BLOCK_SZ, iovs) && Sound(iovs) && Gather(iovs) == f.memory[..|f.content|]
  {
    CutGather(|f.content|, f.memory);
    assert IsSplit(|f.content|, BLOCK_SZ, IovecsFor(Lengths(|f.content|, BLOCK_SZ), Cut(f.memory)));
  }

  class Program {
    /** The characters written to stdout, and the completions posted and not yet seen, oldest first. */
    var console: seq<byte>
    var cq: seq<Cqe>

    constructor ()
      ensures console == [] && cq == []
    {
      console, cq := [], [];
    }

    /** output_to_console(). */
    method OutputToConsole(buf: seq<byte>, len: nat)
      requires len <= |buf|
      modifies this`console
      ensures console == old(console) + buf[..len]
    {
      var p, left := 0, len;
      while left != 0
        invariant 0 <= left && p + left == len
        invariant console == old(console) + buf[..p]
      {
        left := left - 1;
        console := console + [buf[p]];
        p := p + 1;
      }
    }

    /** get_completion_and_print(), once a completion is there. */
    method GetCompletionAndPrint() returns (ret: int)
      requires cq != [] && IsSplit(cq[0].fileSz, BLOCK_SZ, cq[0].iovecs)
      modifies this
      ensures Sound(old(cq)[0].iovecs)
      ensures old(cq)[0].res < 0 ==> ret == 1 && console == old(console) && cq == old(cq)
      ensures old(cq)[0].res >= 0 ==>
        ret == 0 && console == old(console) + Gather(old(cq)[0].iovecs) && cq == old(cq)[1..]
    {
      var cqe := cq[0];
      SplitFacts(cqe.fileSz, BLOCK_SZ, cqe.iovecs);
      if cqe.res < 0 {
        return 1;
      }
      var blocks := BlockCount(cqe.fileSz, BLOCK_SZ);
      var i := 0;
      while i < blocks
        invariant 0 <= i <= blocks && Sound(cqe.iovecs[..i]) && cq == old(cq)
        invariant console == old(console) + Gather(cqe.iovecs[..i])
      {
        GatherNext(cqe.iovecs, i);
        OutputToConsole(cqe.iovecs[i].buf, cqe.iovecs[i].len);
        i := i + 1;
      }
      assert cqe.iovecs[..i] == cqe.iovecs;
      cq := cq[1..];
      return 0;
    }

    /** submit_read_request(), and the kernel's side of the readv it submits. */
    method SubmitReadRequest(f: Argument) returns (ret: int)
      modifies this`cq
      ensures f.Missing? ==> ret == 1 && cq == old(cq)
      ensures f.File? ==>
        ret == 0 && |cq| == |old(cq)| + 1 && cq[..|old(cq)|] == old(cq) && CompletionOf(f, cq[|old(cq)|])
    {
      if f.Missing? {
        return 1;
      }
      FreshBuffers(f);
      var iovecs := SplitFile(|f.content|, BLOCK_SZ, Cut(f.memory));
      ReadThenPrint(|f.content|, BLOCK_SZ, iovecs[..], f.content[..Min(if f.res < 0 then 0 else f.res, |f.content|)]);
      var filled := if f.res < 0 then iovecs[..] else Scatter(iovecs[..], f.content[..Min(f.res, |f.content|)]);
      if f.res >= 0 {
        SplitFacts(|f.content|, BLOCK_SZ, iovecs[..]);
        SplitFacts(|f.content|, BLOCK_SZ, filled);
      }
      cq := cq + [Cqe(f.res, |f.content|, filled)];
      return 0;
    }

    /** A failed completion sits at the head of the queue. */
    ghost predicate Stuck()
      reads this
    {
      cq != [] && cq[0].res < 0 && IsSplit(cq[0].fileSz, BLOCK_SZ, cq[0].iovecs)
    }

    /** One round of the loop of main(), whose caller returns from main() when `failed`. */
    method PrintFile(f: Argument) returns (failed: bool)
      requires cq == [] || Stuck()
      modifies this
      ensures failed <==> f.Missing?
      ensures f.Missing? || old(Stuck()) ==> console == old(console)
      ensures f.File? ==> (Stuck() <==> old(Stuck()) || Fails(f)) && (!Stuck() ==> cq == [])
      ensures f.File? && Stuck() ==> console == old(console)
      ensures f.File? && !Stuck() ==> !Fails(f) && console == old(console) + Shown(f)
    {
      var ret := SubmitReadRequest(f);
      if ret != 0 {
        return true;
      }
      var _ := GetCompletionAndPrint();
      return false;
    }

    /**
     The loop of main(). What it prints is what the files before the first failure show, and the exit status says
     only whether every file could be opened: a failed read silences all later files and still returns 0.
     */
    method Run(files: seq<Argument>) returns (status: int)
      requires console == [] && cq == []
      modifies this
      ensures var n := FirstFailure(files, 0);
              FirstFailureAt(files, n) && console == AllShown(files, n)
      ensures status == 0 <==> forall i :: 0 <= i < |files| ==> files[i].File?
    {
      FirstFailureIs(files, 0);
      var i := 0;
      while i < |files|
        invariant 0 <= i <= |files| && forall k :: 0 <= k < i ==> files[k].File?
        invariant cq == [] || Stuck()
        invariant ShownUpTo(files, i, Stuck(), console)
      {
        ShownUpToStep(files, i, Stuck(), console);
        var failed := PrintFile(files[i]);
        if failed {
          return 1;
        }
        i := i + 1;
      }
      return 0;
    }
  }

  /** The completion the kernel posts for a file's readv. */
  ghost predicate CompletionOf(f: Argument, cqe: Cqe)
    requires f.File?
  {
    && cqe.res == f.res
    && IsSplit(cqe.fileSz, BLOCK_SZ, cqe.iovecs)
    && Sound(cqe.iovecs)
    && (f.res >= 0 ==> Gather(cqe.iovecs) == Shown(f))
  }

  // ---------------------------------------------------------------- what reaches the reader

  /** The contents of the first `n` files. */
  function Contents(files: seq<File>, n: nat): seq<byte>
    requires n <= |files|
  {
    if n == 0 then [] else Contents(files, n - 1) + Content(files[n - 1])
  }

  /** A file's memory held the bytes that a short read did not bring; a complete read leaves none of those. */
  predicate HeldTheRest(f: Argument)
    requires !Fails(f)
  {
    var n := Min(f.res, |f.content|);
    f.memory[n..|f.content|] == f.content[n..]
  }

  lemma ShownIsContentIff(f: Argument)
    requires !Fails(f)
    ensures |Shown(f)| == |f.content|
    ensures Shown(f) == f.content <==> HeldTheRest(f)
  {
    var n := Min(f.res, |f.content|);
    assert f.content == f.content[..n] + f.content[n..];
    assert Shown(f)[n..] == f.memory[n..|f.content|];
  }

  /** The first `n` files print their contents exactly when each memory held what its short read did not bring. */
  lemma {:induction false} GoodFilesShowTheirContentsIff(files: seq<Argument>, n: nat)
    requires n <= |files| && forall i :: 0 <= i < n ==> !Fails(files[i])
    ensures |AllShown(files, n)| == |Contents(files, n)|
    ensures AllShown(files, n) == Contents(files, n) <==> forall i :: 0 <= i < n ==> HeldTheRest(files[i])
  {
    if n > 0 {
      GoodFilesShowTheirContentsIff(files, n - 1);
      ShownIsContentIff(files[n - 1]);
      BothEqualIff(AllShown(files, n - 1), Contents(files, n - 1), Shown(files[n - 1]), files[n - 1].content);
    }
  }

  lemma {:induction false} NothingAfterIff(files: seq<File>, k: nat, n: nat)
    requires k <= n <= |files|
    ensures Contents(files, k) <= Contents(files, n)
    ensures Contents(files, k) == Contents(files, n) <==> forall i :: k <= i < n ==> Content(files[i]) == []
  {
    if k < n {
      NothingAfterIff(files, k, n - 1);
    }
  }

  /**
   The program prints all the files exactly when every short read before the first failure found its missing bytes in
   memory, and nothing from the first failure on has any contents.
   */
  lemma PrintsAllIff(files: seq<Argument>)
    ensures var k := FirstFailure(files, 0);
            && FirstFailureAt(files, k)
            && (AllShown(files, k) == Contents(files, |files|)
                <==> (forall i :: 0 <= i < k ==> HeldTheRest(files[i]))
                     && forall i :: k <= i < |files| ==> Content(files[i]) == [])
  {
    var k := FirstFailure(files, 0);
    FirstFailureIs(files, 0);
    GoodFilesShowTheirContentsIff(files, k);
    NothingAfterIff(files, k, |files|);
  }
}
