/**
 What a caller of my_fread sees: one byte stream and a position in it. The stream becomes readable when the
 kernel posts the completion of the readv that my_fopen submitted.
 */
module Stream {
  import opened Bytes
  import opened Blocks
  import opened Words

  /** Whether the completion has been posted, with which result, and whether a read has looked at it. */
  datatype Phase = Waiting | Posted(res: int) | Visited

  datatype Cursor = Cursor(bytes: seq<byte>, pos: nat, phase: Phase)

  ghost predicate Ok(c: Cursor) {
    c.pos <= |c.bytes|
  }

  /** The completion is there and a read delivers bytes. */
  predicate Readable(c: Cursor) {
    c.phase.Visited? || (c.phase.Posted? && c.phase.res >= 0)
  }

  /** One call of my_fread for `total` bytes. */
  function Read(c: Cursor, total: nat): (r: (Cursor, seq<byte>))
    requires Ok(c)
    ensures Ok(r.0)
  {
    if c.pos == |c.bytes| || c.phase.Waiting? then (c, [])
    else if !Readable(c) then (c.(phase := Visited), [])
    else
      var n := Min(total, |c.bytes| - c.pos);
      (c.(pos := c.pos + n, phase := Visited), c.bytes[c.pos..c.pos + n])
  }

  /** How much a read of `total` bytes can deliver. */
  function Deliverable(c: Cursor, total: nat): nat
    requires Ok(c)
  {
    if Readable(c) then Min(total, |c.bytes| - c.pos) else 0
  }

  /** A read before the end, in one formula. */
  lemma ReadBeforeEnd(c: Cursor, total: nat)
    requires c.pos < |c.bytes|
    ensures var n := Deliverable(c, total);
            Read(c, total) == (Cursor(c.bytes, c.pos + n, if c.phase.Waiting? then Waiting else Visited),
                               c.bytes[c.pos..c.pos + n])
  {
    assert c.bytes[c.pos..c.pos] == [];
  }

  /** When a read comes back empty: at the end, asked for nothing, too early, or as the report of a failure. */
  lemma EmptyReadIff(c: Cursor, total: nat)
    requires Ok(c)
    ensures Read(c, total).1 == [] <==> c.pos == |c.bytes| || total == 0 || !Readable(c)
  {
    if c.pos < |c.bytes| {
      ReadBeforeEnd(c, total);
    }
  }

  /** The kernel fills the buffers and posts the completion. */
  function Post(c: Cursor, filled: seq<byte>, res: int): Cursor {
    Cursor(filled, c.pos, Posted(res))
  }

  function ReadAll(c: Cursor, totals: seq<nat>): (r: (Cursor, seq<seq<byte>>))
    requires Ok(c)
    ensures Ok(r.0) && |r.1| == |totals|
    decreases |totals|
  {
    if totals == [] then (c, []) else
      var (c1, out) := Read(c, totals[0]);
      var (c2, outs) := ReadAll(c1, totals[1..]);
      (c2, [out] + outs)
  }

  /** Two reads deliver what one read of their total would. */
  lemma ReadTwice(c: Cursor, m: nat, n: nat)
    requires Ok(c) && Readable(c)
    ensures var (c1, first) := Read(c, m);
            && Readable(c1)
            && first + Read(c1, n).1 == Read(c, m + n).1
            && Read(c1, n).0.pos == Read(c, m + n).0.pos
  {
  }

  /** However a request is cut into calls, the same bytes come out and the position ends in the same place. */
  lemma {:induction false} ChunkingIndependent(c: Cursor, totals: seq<nat>)
    requires Ok(c) && Readable(c)
    ensures Flatten(ReadAll(c, totals).1) == Read(c, Sum(totals)).1
    ensures ReadAll(c, totals).0.pos == Read(c, Sum(totals)).0.pos
    decreases |totals|
  {
    if totals != [] {
      var (c1, out) := Read(c, totals[0]);
      var rest := totals[1..];
      ReadTwice(c, totals[0], Sum(rest));
      ChunkingIndependent(c1, rest);
      var outs := ReadAll(c1, rest).1;
      assert ReadAll(c, totals).1 == [out] + outs && ([out] + outs)[1..] == outs;
    }
  }

  /** io_uring_read.c's my_fread: the same, but a first read of a non-empty file waits for the completion. */
  function ReadWaiting(c: Cursor, total: nat, filled: seq<byte>, res: int): (r: (Cursor, seq<byte>))
    requires Ok(c) && |filled| == |c.bytes|
    ensures Ok(r.0) && |r.0.bytes| == |c.bytes|
  {
    if c.pos < |c.bytes| && c.phase.Waiting? then Read(Post(c, filled, res), total) else Read(c, total)
  }

  function ReadAllWaiting(c: Cursor, totals: seq<nat>, filled: seq<byte>, res: int): (outs: seq<seq<byte>>)
    requires Ok(c) && |filled| == |c.bytes|
    decreases |totals|
  {
    if totals == [] then [] else
      var (c1, out) := ReadWaiting(c, totals[0], filled, res);
      [out] + ReadAllWaiting(c1, totals[1..], filled, res)
  }

  lemma {:induction false} EmptyReads(c: Cursor, totals: seq<nat>, filled: seq<byte>, res: int)
    requires Ok(c) && c.pos == |c.bytes| == |filled|
    ensures ReadAllWaiting(c, totals, filled, res) == ReadAll(c, totals).1
    ensures forall i :: 0 <= i < |totals| ==> ReadAll(c, totals).1[i] == []
  {
    if totals != [] {
      EmptyReads(c, totals[1..], filled, res);
    }
  }

  lemma {:induction false} NoMoreWaiting(c: Cursor, totals: seq<nat>, filled: seq<byte>, res: int)
    requires Ok(c) && |filled| == |c.bytes| && !c.phase.Waiting?
    ensures ReadAllWaiting(c, totals, filled, res) == ReadAll(c, totals).1
    decreases |totals|
  {
    if totals != [] {
      NoMoreWaiting(Read(c, totals[0]).0, totals[1..], filled, res);
    }
  }

  /** Waiting in the first read and waiting in open give every read the same result. */
  lemma WaitInReadEqualsWaitInOpen(c: Cursor, totals: seq<nat>, filled: seq<byte>, res: int)
    requires Ok(c) && c.phase.Waiting? && |filled| == |c.bytes|
    ensures ReadAllWaiting(c, totals, filled, res) == ReadAll(Post(c, filled, res), totals).1
  {
    var posted := Post(c, filled, res);
    if c.pos == |c.bytes| {
      EmptyReads(c, totals, filled, res);
      EmptyReads(posted, totals, filled, res);
      assert ReadAll(c, totals).1 == ReadAll(posted, totals).1;
    } else if totals != [] {
      NoMoreWaiting(Read(posted, totals[0]).0, totals[1..], filled, res);
    }
  }

  /** Without a wait, reads made before the completion return nothing and cost nothing: later ones miss no byte. */
  lemma {:induction false} EarlyReadsAreEmpty(c: Cursor, early: seq<nat>)
    requires Ok(c) && c.phase.Waiting?
    ensures ReadAll(c, early).0 == c
    ensures Flatten(ReadAll(c, early).1) == []
  {
    if early != [] {
      EarlyReadsAreEmpty(c, early[1..]);
      var outs := ReadAll(c, early[1..]).1;
      assert ReadAll(c, early).1 == [[]] + outs && ([[]] + outs)[1..] == outs;
      assert Flatten(ReadAll(c, early).1) == [] + Flatten(outs);
    }
  }

  /** A failed completion is reported by one empty read; every read after it delivers what the buffers hold. */
  lemma FailureShowsOnce(c: Cursor, first: nat, next: nat)
    requires Ok(c) && c.phase.Posted? && c.phase.res < 0
    ensures Read(c, first).1 == []
    ensures Read(Read(c, first).0, next).1 != [] <==> c.pos < |c.bytes| && next > 0
  {
  }

  /** What cat writes, whatever the size of its chunks. */
  function CatOutput(c: Cursor): seq<byte>
    requires Ok(c)
  {
    if Readable(c) then c.bytes[c.pos..] else []
  }

  /** How far cat's loop has come from cursor `start`. */
  ghost predicate Drained(start: Cursor, c: Cursor, out: seq<byte>) {
    && Ok(start) && Ok(c)
    && c.bytes == start.bytes && start.pos <= c.pos && out == c.bytes[start.pos..c.pos]
    && (c == start || (Readable(start) && Readable(c)))
  }

  /** A read that returns bytes makes progress, and one that returns none means that cat is done. */
  lemma DrainStep(start: Cursor, c: Cursor, out: seq<byte>, chunk: nat)
    requires Drained(start, c, out) && chunk > 0
    ensures var (c', more) := Read(c, chunk);
            && c'.bytes == start.bytes
            && (more != [] ==> Drained(start, c', out + more) && c'.pos > c.pos)
            && (more == [] ==> out == CatOutput(start) && (Readable(start) ==> c'.pos == |start.bytes|))
  {
    var (c', more) := Read(c, chunk);
    Slices(c.bytes, start.pos, c.pos, c'.pos);
  }

  /**
   The padded stream after a read of `n` bytes is the file exactly when the file fills its last block and the buffers
   already held the bytes that were not read. A complete read leaves none of those.
   */
  lemma PaddedIsFileIff(content: seq<byte>, initial: seq<Iovec<seq<byte>>>, n: nat)
    requires IsSplit(|content|, 4096, initial) && Sound(initial) && n <= |content|
    ensures |Gather(initial)| == |content|
    ensures Padded(Scatter(initial, content[..n])) == content
       <==> |content| % 4096 == 0 && Gather(initial)[n..] == content[n..]
  {
    var data := content[..n];
    var iovs := Scatter(initial, data);
    LengthsShape(|content|, 4096);
    SplitFacts(|content|, 4096, initial);
    PaddedAfterRead(|content|, initial, data);
    WholeBlocksIff(|content|);
    if |content| % 4096 == 0 {
      GatherScatter(initial, data);
      assert Padded(iovs) == data + Gather(initial)[n..];
      assert content == data + content[n..];
      assert (data + Gather(initial)[n..])[n..] == Gather(initial)[n..];
    }
  }

  lemma WholeBlocksIff(n: nat)
    ensures ((n + 4095) / 4096) * 4096 == n <==> n % 4096 == 0
  {
  }

  /** A readv of `data`, complete or short, puts it at the start of the padded stream. */
  lemma PaddedAfterRead(fileSz: nat, initial: seq<Iovec<seq<byte>>>, data: seq<byte>)
    requires IsSplit(fileSz, 4096, initial) && Sound(initial) && |data| <= fileSz
    ensures data <= Padded(Scatter(initial, data))
    ensures |Padded(Scatter(initial, data))| == |initial| * 4096
    ensures Sound(Scatter(initial, data)) && Gather(Scatter(initial, data)) <= Padded(Scatter(initial, data))
  {
    var iovs := Scatter(initial, data);
    LengthsShape(fileSz, 4096);
    SplitFacts(fileSz, 4096, initial);
    ReadThenPrint(fileSz, 4096, initial, data);
    SplitFacts(fileSz, 4096, iovs);
    PaddedLength(iovs);
    GatherIsPrefix(iovs);
  }

  /** One round of the transfer: the first buffer takes what fits. */
  lemma ScatterStep(iovs: seq<Iovec<seq<byte>>>, data: seq<byte>, n: nat)
    requires Sound(iovs) && iovs != [] && data != [] && n == Min(iovs[0].len, |data|)
    ensures Sound(iovs[1..])
    ensures Scatter(iovs, data) == [iovs[0].(buf := data[..n] + iovs[0].buf[n..])] + Scatter(iovs[1..], data[n..])
  {
  }

  /** Filling buffer `i` and then transferring the rest from buffer `i + 1` on transfers all from buffer `i` on. */
  lemma ScatterFrom(before: seq<Iovec<seq<byte>>>, filled: seq<Iovec<seq<byte>>>, i: nat, data: seq<byte>)
    requires i < |before| && data != [] && Sound(before[i..])
    requires var v := before[i];
             var n := Min(v.len, |data|);
             filled == before[i := v.(buf := data[..n] + v.buf[|data[..n]|..])]
    ensures var n := Min(before[i].len, |data|);
            && Sound(filled[i + 1..])
            && filled[..i + 1] + Scatter(filled[i + 1..], data[n..]) == before[..i] + Scatter(before[i..], data)
  {
    var n := Min(before[i].len, |data|);
    ScatterStep(before[i..], data, n);
    assert before[i..][0] == before[i] && before[i..][1..] == before[i + 1..] == filled[i + 1..];
    assert filled[..i + 1] == before[..i] + [filled[i]];
    var rest := Scatter(filled[i + 1..], data[n..]);
    Associate(before[..i], [filled[i]], rest);
  }

  lemma Associate<T>(a: seq<T>, b: seq<T>, c: seq<T>)
    ensures (a + b) + c == a + (b + c)
  {
  }

  // ---------------------------------------------------------------- the padded stream of an iovec array

  /** The buffers end to end, each to its full 4096 bytes. */
  ghost function Padded(iovs: seq<Iovec<seq<byte>>>): seq<byte> {
    if iovs == [] then [] else iovs[0].buf + Padded(iovs[1..])
  }

  lemma {:induction false} PaddedLength(iovs: seq<Iovec<seq<byte>>>)
    requires WholeBlocks(iovs, 4096)
    ensures |Padded(iovs)| == |iovs| * 4096
  {
    if iovs != [] {
      PaddedLength(iovs[1..]);
    }
  }

  /** Bytes of block `i` stand at offset `i * 4096` of the padded stream. */
  lemma {:induction false} PaddedBlock(iovs: seq<Iovec<seq<byte>>>, i: nat, offset: nat, n: nat)
    requires WholeBlocks(iovs, 4096) && i < |iovs| && offset + n <= 4096
    ensures i * 4096 + offset + n <= |Padded(iovs)|
    ensures Padded(iovs)[i * 4096 + offset..i * 4096 + offset + n] == iovs[i].buf[offset..offset + n]
  {
    PaddedLength(iovs);
    if i > 0 {
      PaddedBlock(iovs[1..], i - 1, offset, n);
    }
  }

  /** Only the last block can be short, so what the iovecs describe is a prefix of the padded stream. */
  lemma {:induction false} GatherIsPrefix(iovs: seq<Iovec<seq<byte>>>)
    requires WholeBlocks(iovs, 4096) && Sound(iovs)
    requires forall i :: 0 <= i < |iovs| - 1 ==> iovs[i].len == 4096
    ensures Gather(iovs) <= Padded(iovs)
  {
    if |iovs| > 1 {
      GatherIsPrefix(iovs[1..]);
      assert iovs[0].buf[..4096] == iovs[0].buf;
    } else if |iovs| == 1 {
      assert Gather(iovs[1..]) == [] && Padded(iovs[1..]) == [];
    }
  }
}
