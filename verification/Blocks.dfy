/**
 Files cut into blocks: the block count computed at open, the loop that fills the iovec array,
 and what readv() does to such an array (POSIX.1-2017, readv(): areas are filled in array order,
 each one completely before the next).
 */
module Blocks {
  import opened Words
  import opened Bytes

  /** `struct iovec`: `T` is the buffer, a heap array where the code runs, its contents where it is specified. */
  datatype Iovec<T> = Iovec(len: nat, buf: T)

  /** The size, cut to an `int` before the division, in blocks; the test for a rest looks at the whole size. */
  function BlockCount(fileSz: int, b: int): int
    requires b > 0
  {
    TruncDiv(Int32(fileSz), b) + (if TruncMod(fileSz, b) != 0 then 1 else 0)
  }

  /** The iovec lengths the splitting loop produces for `size` remaining bytes. */
  function Lengths(size: nat, b: nat): (lens: seq<nat>)
    requires b > 0
    decreases size
  {
    if size == 0 then [] else
      var n := Min(size, b);
      [n] + Lengths(size - n, b)
  }

  function Sum(lens: seq<nat>): nat {
    if lens == [] then 0 else lens[0] + Sum(lens[1..])
  }

  /** The block sizes the programs are compiled with. */
  predicate IsBlockSize(b: nat) {
    b == 1024 || b == 4096
  }

  /** Every block but the last is full, the last is not empty, and together they cover the file. */
  lemma {:induction false} LengthsShape(size: nat, b: nat)
    requires IsBlockSize(b)
    ensures var lens := Lengths(size, b);
            && Sum(lens) == size
            && |lens| == (size + b - 1) / b
            && (forall i :: 0 <= i < |lens| ==> 1 <= lens[i] <= b)
            && (forall i :: 0 <= i < |lens| - 1 ==> lens[i] == b)
    decreases size
  {
    if size > 0 {
      LengthsShape(size - Min(size, b), b);
    }
  }

  /** The block count is the number of iovecs the loop writes exactly for files below 2 GiB. */
  lemma BlockCountExactIff(size: nat, b: nat)
    requires IsBlockSize(b)
    ensures BlockCount(size, b) == |Lengths(size, b)| <==> size < TWO_31
  {
    LengthsShape(size, b);
    if b == 1024 {
      Count1024(size);
    } else {
      Count4096(size);
    }
  }

  lemma Count1024(size: nat)
    ensures BlockCount(size, 1024) == (size + 1023) / 1024 <==> size < TWO_31
  {
    assert TruncDiv(Int32(size), 1024) < TWO_31 / 1024;
    if size < TWO_31 {
      assert Int32(size) == size;
    } else if size == TWO_31 {
      assert Int32(size) < 0;
    } else {
      assert (size + 1023) / 1024 > TWO_31 / 1024;
    }
  }

  lemma Count4096(size: nat)
    ensures BlockCount(size, 4096) == (size + 4095) / 4096 <==> size < TWO_31
  {
    assert TruncDiv(Int32(size), 4096) < TWO_31 / 4096;
    if size < TWO_31 {
      assert Int32(size) == size;
    } else if size == TWO_31 {
      assert Int32(size) < 0;
    } else {
      assert (size + 4095) / 4096 > TWO_31 / 4096;
    }
  }

  function IovecsFor<T>(lens: seq<nat>, bufs: seq<T>): (iovs: seq<Iovec<T>>)
    requires |bufs| == |lens|
    ensures |iovs| == |lens|
  {
    seq(|lens|, i requires 0 <= i < |lens| => Iovec(lens[i], bufs[i]))
  }

  /** The splitting loop. `bufs` are the blocks that posix_memalign() hands out, in order. */
  method SplitFile<T>(fileSz: nat, b: nat, bufs: seq<T>) returns (iovecs: array<Iovec<T>>)
    requires IsBlockSize(b) && fileSz < TWO_31 && |bufs| == |Lengths(fileSz, b)|
    ensures fresh(iovecs)
    ensures iovecs[..] == IovecsFor(Lengths(fileSz, b), bufs)
  {
    ghost var lens := Lengths(fileSz, b);
    BlockCountExactIff(fileSz, b);
    var blocks := BlockCount(fileSz, b);
    iovecs := new Iovec<T>[blocks](i requires 0 <= i < |bufs| => Iovec(0, bufs[i]));
    var bytesRemaining: int, currentBlock := fileSz, 0;
    while bytesRemaining != 0
      invariant 0 <= bytesRemaining && 0 <= currentBlock <= |lens|
      invariant lens[currentBlock..] == Lengths(bytesRemaining, b)
      invariant forall i :: 0 <= i < currentBlock ==> iovecs[i] == Iovec(lens[i], bufs[i])
    {
      var bytesToRead := bytesRemaining;
      if bytesToRead > b {
        bytesToRead := b;
      }
      assert lens[currentBlock..][0] == bytesToRead && lens[currentBlock..][1..] == lens[currentBlock + 1..];
      iovecs[currentBlock] := Iovec(bytesToRead, bufs[currentBlock]);
      currentBlock := currentBlock + 1;
      bytesRemaining := bytesRemaining - bytesToRead;
    }
    assert |lens[currentBlock..]| == 0;
  }

  /** Every iovec lies inside its buffer. */
  predicate Sound(iovs: seq<Iovec<seq<byte>>>) {
    forall v :: v in iovs ==> v.len <= |v.buf|
  }

  /** Every buffer is a whole block. */
  ghost predicate WholeBlocks(iovs: seq<Iovec<seq<byte>>>, b: nat) {
    forall v :: v in iovs ==> |v.buf| == b
  }

  /** The bytes that the iovecs describe, in array order. */
  function Gather(iovs: seq<Iovec<seq<byte>>>): seq<byte>
    requires Sound(iovs)
  {
    if iovs == [] then [] else iovs[0].buf[..iovs[0].len] + Gather(iovs[1..])
  }

  /** readv() of `data` into the iovecs: each area is filled completely before the next. */
  function Scatter(iovs: seq<Iovec<seq<byte>>>, data: seq<byte>): seq<Iovec<seq<byte>>>
    requires Sound(iovs)
  {
    if iovs == [] || data == [] then iovs else
      var v := iovs[0];
      var n := Min(v.len, |data|);
      [v.(buf := data[..n] + v.buf[n..])] + Scatter(iovs[1..], data[n..])
  }

  ghost predicate SameShape(a: seq<Iovec<seq<byte>>>, c: seq<Iovec<seq<byte>>>) {
    && |a| == |c|
    && forall i :: 0 <= i < |a| ==> a[i].len == c[i].len && |a[i].buf| == |c[i].buf|
  }

  lemma {:induction false} ScatterKeepsShape(iovs: seq<Iovec<seq<byte>>>, data: seq<byte>)
    requires Sound(iovs)
    ensures SameShape(iovs, Scatter(iovs, data)) && Sound(Scatter(iovs, data))
  {
    if iovs != [] && data != [] {
      ScatterKeepsShape(iovs[1..], data[Min(iovs[0].len, |data|)..]);
    }
  }

  lemma {:induction false} GatherLength(iovs: seq<Iovec<seq<byte>>>, lens: seq<nat>)
    requires Sound(iovs) && |iovs| == |lens| && forall i :: 0 <= i < |lens| ==> iovs[i].len == lens[i]
    ensures |Gather(iovs)| == Sum(lens)
  {
    if iovs != [] {
      GatherLength(iovs[1..], lens[1..]);
    }
  }

  lemma {:induction false} GatherAppend(a: seq<Iovec<seq<byte>>>, c: seq<Iovec<seq<byte>>>)
    requires Sound(a) && Sound(c)
    ensures Sound(a + c) && Gather(a + c) == Gather(a) + Gather(c)
  {
    if a == [] {
      assert a + c == c;
    } else {
      assert (a + c)[1..] == a[1..] + c;
      GatherAppend(a[1..], c);
    }
  }

  lemma GatherNext(iovs: seq<Iovec<seq<byte>>>, i: nat)
    requires i < |iovs| && Sound(iovs)
    ensures Sound(iovs[..i]) && Sound(iovs[..i + 1])
    ensures Gather(iovs[..i + 1]) == Gather(iovs[..i]) + iovs[i].buf[..iovs[i].len]
  {
    assert iovs[..i + 1] == iovs[..i] + [iovs[i]];
    GatherAppend(iovs[..i], [iovs[i]]);
    assert Gather([iovs[i]]) == iovs[i].buf[..iovs[i].len] + Gather([]);
  }

  /** Gathering after a readv() gives the data read, then what the buffers held before. */
  lemma {:induction false} GatherScatter(iovs: seq<Iovec<seq<byte>>>, data: seq<byte>)
    requires Sound(iovs) && |data| <= |Gather(iovs)|
    ensures Sound(Scatter(iovs, data))
    ensures Gather(Scatter(iovs, data)) == data + Gather(iovs)[|data|..]
  {
    ScatterKeepsShape(iovs, data);
    if iovs != [] && data != [] {
      var n := Min(iovs[0].len, |data|);
      GatherScatter(iovs[1..], data[n..]);
      GatherScatterStep(iovs, data, n);
    }
  }

  lemma GatherScatterStep(iovs: seq<Iovec<seq<byte>>>, data: seq<byte>, n: nat)
    requires Sound(iovs) && iovs != [] && data != [] && |data| <= |Gather(iovs)|
    requires n == Min(iovs[0].len, |data|) && Sound(Scatter(iovs, data)) && Sound(Scatter(iovs[1..], data[n..]))
    requires |data[n..]| <= |Gather(iovs[1..])|
    requires Gather(Scatter(iovs[1..], data[n..])) == data[n..] + Gather(iovs[1..])[|data[n..]|..]
    ensures Gather(Scatter(iovs, data)) == data + Gather(iovs)[|data|..]
  {
    var v, rest := iovs[0], iovs[1..];
    var filled := v.(buf := data[..n] + v.buf[n..]);
    var scattered := Scatter(iovs, data);
    assert scattered[0] == filled && scattered[1..] == Scatter(rest, data[n..]);
    var w, g := v.buf[..v.len], Gather(rest);
    assert filled.buf[..v.len] == data[..n] + w[n..];
    assert Gather(scattered) == (data[..n] + w[n..]) + (data[n..] + g[|data| - n..]);
    assert Gather(iovs) == w + g;
    Splice(data, w, g, n);
  }

  lemma Splice(data: seq<byte>, w: seq<byte>, g: seq<byte>, n: nat)
    requires n == Min(|w|, |data|) && |data| <= |w| + |g|
    ensures (data[..n] + w[n..]) + (data[n..] + g[|data| - n..]) == data + (w + g)[|data|..]
  {
    if n == |w| {
      assert (w + g)[|data|..] == g[|data| - n..];
    } else {
      assert (w + g)[n..] == w[n..] + g;
    }
  }

  /** What the programs print for a completed file: `iov_len` bytes of each of the recomputed blocks. */
  function Printed(fileSz: nat, b: nat, iovs: seq<Iovec<seq<byte>>>): seq<byte>
    requires Sound(iovs) && b > 0 && 0 <= BlockCount(fileSz, b) <= |iovs|
  {
    Gather(iovs[..BlockCount(fileSz, b)])
  }

  /** A file_info as the splitting loop leaves it, whatever its buffers hold. */
  ghost predicate IsSplit(fileSz: nat, b: nat, iovs: seq<Iovec<seq<byte>>>) {
    && IsBlockSize(b)
    && fileSz < TWO_31
    && WholeBlocks(iovs, b)
    && var lens := Lengths(fileSz, b);
       && |iovs| == |lens|
       && forall i :: 0 <= i < |lens| ==> iovs[i].len == lens[i]
  }

  lemma SplitIsSound(fileSz: nat, b: nat, iovs: seq<Iovec<seq<byte>>>)
    requires IsSplit(fileSz, b, iovs)
    ensures Sound(iovs)
    ensures |Gather(iovs)| == fileSz
  {
    LengthsShape(fileSz, b);
    GatherLength(iovs, Lengths(fileSz, b));
  }

  lemma SplitFacts(fileSz: nat, b: nat, iovs: seq<Iovec<seq<byte>>>)
    requires IsSplit(fileSz, b, iovs)
    ensures Sound(iovs)
    ensures BlockCount(fileSz, b) == |iovs|
    ensures |Gather(iovs)| == fileSz && Printed(fileSz, b, iovs) == Gather(iovs)
  {
    SplitIsSound(fileSz, b, iovs);
    BlockCountExactIff(fileSz, b);
    assert iovs[..|iovs|] == iovs;
  }

  /** A transfer into the first `n` of its iovecs leaves a file_info split as it was. */
  lemma ScatterKeepsSplit(fileSz: nat, b: nat, iovs: seq<Iovec<seq<byte>>>, n: nat, data: seq<byte>)
    requires IsSplit(fileSz, b, iovs) && n <= |iovs| && Sound(iovs[..n])
    ensures IsSplit(fileSz, b, Scatter(iovs[..n], data) + iovs[n..])
  {
    ScatterKeepsShape(iovs[..n], data);
    var filled := Scatter(iovs[..n], data);
    var whole: seq<Iovec<seq<byte>>> := filled + iovs[n..];
    forall i | 0 <= i < |iovs|
      ensures whole[i].len == iovs[i].len && |whole[i].buf| == b
    {
      assert whole[i] == if i < n then filled[i] else iovs[i];
      assert i < n ==> iovs[..n][i] == iovs[i];
    }
  }

  lemma {:induction false} GatherFresh(size: nat, b: nat, bufs: seq<seq<byte>>)
    requires b > 0 && AllOfLength(bufs, b) && |bufs| == |Lengths(size, b)|
    ensures var iovs := IovecsFor(Lengths(size, b), bufs);
            Sound(iovs) && size <= |Flatten(bufs)| && Gather(iovs) == Flatten(bufs)[..size]
    decreases size
  {
    if size > 0 {
      var n := Min(size, b);
      var iovs := IovecsFor(Lengths(size, b), bufs);
      GatherFresh(size - n, b, bufs[1..]);
      assert iovs[1..] == IovecsFor(Lengths(size - n, b), bufs[1..]);
      assert bufs[0] in bufs && |bufs[0]| == b;
      assert Sound(iovs);
      assert n < b ==> size - n == 0;
      assert (bufs[0] + Flatten(bufs[1..]))[..size] == bufs[0][..n] + Flatten(bufs[1..])[..size - n];
    }
  }

  /** A file_info just split prints what the memory handed out for it holds. */
  lemma FreshPrints(size: nat, b: nat, bufs: seq<seq<byte>>)
    requires IsBlockSize(b) && size < TWO_31 && AllOfLength(bufs, b) && |bufs| == |Lengths(size, b)|
    ensures var iovs := IovecsFor(Lengths(size, b), bufs);
            && Sound(iovs) && BlockCount(size, b) == |iovs| && size <= |Flatten(bufs)|
            && Printed(size, b, iovs) == Flatten(bufs)[..size]
  {
    assert IsSplit(size, b, IovecsFor(Lengths(size, b), bufs));
    SplitFacts(size, b, IovecsFor(Lengths(size, b), bufs));
    GatherFresh(size, b, bufs);
  }

  /** A completed readv(), short or not, leaves a file_info that prints the bytes read and then old buffer contents. */
  lemma ReadThenPrint(fileSz: nat, b: nat, iovs: seq<Iovec<seq<byte>>>, data: seq<byte>)
    requires IsSplit(fileSz, b, iovs) && |data| <= fileSz
    ensures Sound(iovs) && IsSplit(fileSz, b, Scatter(iovs, data)) && Sound(Scatter(iovs, data))
    ensures BlockCount(fileSz, b) == |iovs| == |Scatter(iovs, data)| && |Printed(fileSz, b, iovs)| == fileSz
    ensures Printed(fileSz, b, Scatter(iovs, data)) == data + Printed(fileSz, b, iovs)[|data|..]
  {
    SplitFacts(fileSz, b, iovs);
    ScatterKeepsShape(iovs, data);
    GatherScatter(iovs, data);
    SplitFacts(fileSz, b, Scatter(iovs, data));
  }

  /** Round trip: split a file, read all of it, print the blocks, and the file comes out. */
  lemma SplitReadPrint(content: seq<byte>, b: nat, bufs: seq<seq<byte>>)
    requires IsBlockSize(b) && |content| < TWO_31
    requires AllOfLength(bufs, b) && |bufs| == |Lengths(|content|, b)|
    ensures var iovs := IovecsFor(Lengths(|content|, b), bufs);
            && Sound(iovs) && Sound(Scatter(iovs, content))
            && BlockCount(|content|, b) == |Scatter(iovs, content)|
            && Printed(|content|, b, Scatter(iovs, content)) == content
  {
    var iovs := IovecsFor(Lengths(|content|, b), bufs);
    assert IsSplit(|content|, b, iovs);
    SplitFacts(|content|, b, iovs);
    ReadThenPrint(|content|, b, iovs, content);
  }

  /** The printing loop, whose output goes to `console` so far. */
  method PrintBlocks(console: seq<byte>, fileSz: nat, b: nat, iovs: seq<Iovec<seq<byte>>>) returns (out: seq<byte>)
    requires IsSplit(fileSz, b, iovs)
    ensures Sound(iovs) && BlockCount(fileSz, b) == |iovs|
    ensures out == console + Printed(fileSz, b, iovs)
  {
    SplitFacts(fileSz, b, iovs);
    var blocks := BlockCount(fileSz, b);
    out := console;
    var i := 0;
    while i < blocks
      invariant 0 <= i <= blocks && Sound(iovs[..i])
      invariant out == console + Gather(iovs[..i])
    {
      GatherNext(iovs, i);
      out := out + iovs[i].buf[..iovs[i].len];
      i := i + 1;
    }
  }
}
