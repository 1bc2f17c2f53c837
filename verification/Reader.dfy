/**
 The buffered reader on one ring: my_fopen (host.cpp), my_fread (device.cpp), the variant that waits in its
 first read (io_uring_read.c), and cat (main.cpp). Blocks are 4096 bytes.
 */
module Reader {
  import opened Words
  import opened Bytes
  import opened Blocks
  import S = Stream

  /** A file_info: the iovec array that the readv request refers to. */
  class FileInfo {
    const fileSz: nat
    const iovecs: array<Iovec<array<byte>>>

    constructor (fileSz: nat, iovecs: array<Iovec<array<byte>>>)
      ensures this.fileSz == fileSz && this.iovecs == iovecs
    {
      this.fileSz := fileSz;
      this.iovecs := iovecs;
    }

    ghost function Buffers(): set<array<byte>>
      reads iovecs
    {
      set i | 0 <= i < iovecs.Length :: iovecs[i].buf
    }

    /** The iovecs with what their buffers hold. */
    ghost function Contents(): (c: seq<Iovec<seq<byte>>>)
      reads iovecs, Buffers()
      ensures |c| == iovecs.Length
    {
      seq(iovecs.Length, i requires 0 <= i < iovecs.Length reads iovecs, Buffers() =>
        Iovec(iovecs[i].len, iovecs[i].buf[..]))
    }

    ghost predicate Valid()
      reads iovecs
    {
      forall i :: 0 <= i < iovecs.Length ==> 1 <= iovecs[i].len <= 4096 && iovecs[i].buf.Length == 4096
    }

    ghost predicate DistinctBuffers()
      reads iovecs
    {
      forall i, j :: 0 <= i < j < iovecs.Length ==> iovecs[i].buf != iovecs[j].buf
    }

    /** The kernel's transfer of `data` from buffer `i` on: buffer after buffer, each one full before the next. */
    method Readv(i: nat, data: seq<byte>)
      requires Valid() && DistinctBuffers() && i <= iovecs.Length && Sound(Contents()[i..])
      modifies Buffers()
      ensures Contents() == old(Contents())[..i] + Scatter(old(Contents())[i..], data)
      decreases iovecs.Length - i
    {
      if i < iovecs.Length && data != [] {
        ghost var before := Contents();
        var n := Min(iovecs[i].len, |data|);
        Fill(i, data[..n]);
        S.ScatterFrom(before, Contents(), i, data);
        Readv(i + 1, data[n..]);
      } else {
        assert Contents() == Contents()[..i] + Contents()[i..];
      }
    }

    /** The clamps and the memcpy() of one round of my_fread, whose position in the padded stream is `pos`. */
    method CopyOut(index: nat, offset: nat, ptr: array<byte>, bytesRead: nat, totalBytes: nat, ghost pos: nat)
      returns (toCopy: nat)
      requires Valid() && index < iovecs.Length && offset < 4096 && index * 4096 + offset == pos + bytesRead
      requires bytesRead <= totalBytes <= ptr.Length && ptr !in Buffers()
      requires pos + bytesRead <= |S.Padded(Contents())|
      requires ptr[..bytesRead] == S.Padded(Contents())[pos..pos + bytesRead]
      modifies ptr
      ensures toCopy <= 4096 - offset && toCopy <= totalBytes - bytesRead
      ensures bytesRead < totalBytes ==> toCopy > 0
      ensures Contents() == old(Contents()) && pos + bytesRead + toCopy <= |S.Padded(Contents())|
      ensures ptr[..bytesRead + toCopy] == S.Padded(Contents())[pos..pos + bytesRead + toCopy]
      ensures forall k :: bytesRead + toCopy <= k < ptr.Length ==> ptr[k] == old(ptr[k])
    {
      var blockSize := 4096 - offset;
      toCopy := iovecs[index].len;
      var remainingSpace := totalBytes - bytesRead;
      if toCopy > blockSize {
        toCopy := blockSize;
      }
      if toCopy > remainingSpace {
        toCopy := remainingSpace;
      }
      assert iovecs[index].buf in Buffers();
      S.PaddedBlock(Contents(), index, offset, toCopy);
      Memcpy(ptr, bytesRead, iovecs[index].buf, offset, toCopy);
      Slices(S.Padded(Contents()), pos, pos + bytesRead, pos + bytesRead + toCopy);
      assert ptr[..bytesRead + toCopy] == old(ptr[..bytesRead]) + iovecs[index].buf[offset..offset + toCopy];
    }

    method Fill(i: nat, data: seq<byte>)
      requires Valid() && DistinctBuffers() && i < iovecs.Length && |data| <= 4096
      modifies iovecs[i].buf
      ensures var v := old(Contents())[i];
              Contents() == old(Contents())[i := v.(buf := data + v.buf[|data|..])]
    {
      var buf := iovecs[i].buf;
      forall k | 0 <= k < |data| {
        buf[k] := data[k];
      }
      assert buf[..] == data + old(buf[..])[|data|..];
      forall j | 0 <= j < iovecs.Length && j != i
        ensures iovecs[j].buf[..] == old(iovecs[j].buf[..])
      {
        assert iovecs[j].buf != buf;
      }
    }
  }

  datatype Cqe = Cqe(userData: FileInfo?, res: int)

  /** The completion ring of a file's submitter. */
  class CompletionRing {
    var head: u32
    var tail: u32
    const cqes: array<Cqe>

    constructor (entries: nat, counter: u32)
      requires IsRingSize(entries)
      ensures head == tail == counter && cqes.Length == entries && fresh(cqes)
    {
      head, tail := counter, counter;
      cqes := new Cqe[entries];
    }

    /** The kernel posts a completion. */
    method Post(cqe: Cqe)
      requires cqes.Length > 0
      modifies this`tail, cqes
      ensures cqes[..] == old(cqes[..])[Slot(old(tail), cqes.Length) := cqe]
      ensures tail == Wrap32(old(tail) + 1)
    {
      cqes[Slot(tail, cqes.Length)] := cqe;
      tail := Wrap32(tail + 1);
    }
  }

  class MyFile {
    const blocks: int
    const cring: CompletionRing
    const fi: FileInfo
    ghost const openHead: u32
    var currentBlock: int
    var currentOffset: int
    var isFirst: int
    var fiRead: FileInfo?

    constructor (blocks: int, cring: CompletionRing, fi: FileInfo)
      ensures this.blocks == blocks && this.cring == cring && this.fi == fi
      ensures currentBlock == currentOffset == isFirst == 0 && openHead == cring.head
    {
      this.blocks, this.cring, this.fi := blocks, cring, fi;
      openHead := cring.head;
      currentBlock, currentOffset, isFirst, fiRead := 0, 0, 0, null;
    }

    /** The completion that the next reap would find. */
    function NextCqe(): Cqe
      requires cring.cqes.Length > 0
      reads cring, cring.cqes
    {
      cring.cqes[Slot(cring.head, cring.cqes.Length)]
    }

    /**
     The position is in range, the file_info found by a read is this file's, and the ring's head has moved on
     by the number of finished blocks since the file was opened.
     */
    ghost predicate Valid()
      reads this, cring, cring.cqes, fi, fi.iovecs
    {
      && fi.Valid()
      && blocks == fi.iovecs.Length
      && cring.cqes.Length > 0
      && 0 <= currentBlock <= blocks
      && 0 <= currentOffset < 4096
      && (currentBlock == blocks ==> currentOffset == 0)
      && (isFirst == 0 || isFirst == 1)
      && (isFirst == 1 ==> fiRead == fi)
      && (isFirst == 0 ==> currentBlock == 0 && currentOffset == 0)
      && (isFirst == 0 && cring.head != cring.tail ==> NextCqe().userData == fi)
      && cring.head == Advance(openHead, currentBlock)
    }

    ghost function Phase(): S.Phase
      requires cring.cqes.Length > 0
      reads this, cring, cring.cqes
    {
      if isFirst == 1 then S.Visited
      else if cring.head == cring.tail then S.Waiting
      else S.Posted(NextCqe().res)
    }

    /** The refinement map: one byte stream and a position. */
    ghost function Cursor(): (c: S.Cursor)
      requires Valid()
      reads this, cring, cring.cqes, fi, fi.iovecs, fi.Buffers()
      ensures S.Ok(c) && |c.bytes| == blocks * 4096
    {
      S.PaddedLength(fi.Contents());
      S.Cursor(S.Padded(fi.Contents()), currentBlock * 4096 + currentOffset, Phase())
    }

    /** The spin on the completion ring's tail, which the kernel ends after `pauses` rounds by serving the request. */
    method AwaitCompletion(pauses: nat, data: seq<byte>, res: int)
      requires Valid() && fi.DistinctBuffers() && Sound(fi.Contents()) && isFirst == 0
      modifies cring`tail, cring.cqes, fi.Buffers()
      ensures Valid()
      ensures cring.tail == if old(Phase()).Waiting? then Wrap32(old(cring.tail) + 1) else old(cring.tail)
      ensures Cursor() == if old(Phase()).Waiting?
                          then S.Post(old(Cursor()), S.Padded(Scatter(old(fi.Contents()), data)), res)
                          else old(Cursor())
    {
      var waited := 0;
      while cring.head == cring.tail
        invariant 0 <= waited <= pauses
        invariant cring.tail == old(cring.tail) ==> fi.Contents() == old(fi.Contents()) && Phase() == old(Phase())
        invariant cring.tail == old(cring.tail) ==> cring.cqes[..] == old(cring.cqes[..])
        invariant cring.tail != old(cring.tail) ==>
                    old(Phase()).Waiting? && Served(fi, cring, old(cring.tail), Scatter(old(fi.Contents()), data), res)
        decreases pauses - waited, cring.head == cring.tail
      {
        if waited < pauses {
          waited := waited + 1;
        } else {
          Serve(fi, cring, data, res);
        }
      }
    }

    /** The first read of a non-empty file waits for the completion. */
    method WaitInFirst(pauses: nat, data: seq<byte>, res: int)
      requires Valid() && fi.DistinctBuffers() && Sound(fi.Contents())
      modifies cring`tail, cring.cqes, fi.Buffers()
      ensures Valid()
      ensures Cursor() == if old(Cursor()).pos < |old(Cursor()).bytes| && old(Phase()).Waiting?
                          then S.Post(old(Cursor()), S.Padded(Scatter(old(fi.Contents()), data)), res)
                          else old(Cursor())
    {
      if currentBlock < blocks && isFirst == 0 {
        AwaitCompletion(pauses, data, res);
      }
    }

    /** my_fread of io_uring_read.c. */
    method MyFreadWaiting(ptr: array<byte>, size: nat, count: nat, pauses: nat, data: seq<byte>, res: int)
      returns (bytesRead: nat)
      requires Valid() && fi.DistinctBuffers() && Sound(fi.Contents())
      requires (size * count) % TWO_64 <= ptr.Length
      requires ptr !in fi.Buffers()
      modifies this, cring, cring.cqes, fi.Buffers(), ptr
      ensures Valid() && bytesRead <= ptr.Length
      ensures var filled := S.Padded(Scatter(old(fi.Contents()), data));
              && |filled| == |old(Cursor()).bytes|
              && (Cursor(), ptr[..bytesRead]) == S.ReadWaiting(old(Cursor()), (size * count) % TWO_64, filled, res)
      ensures forall k :: bytesRead <= k < ptr.Length ==> ptr[k] == old(ptr[k])
    {
      ScatterKeepsShape(fi.Contents(), data);
      S.PaddedLength(Scatter(fi.Contents(), data));
      WaitInFirst(pauses, data, res);
      bytesRead := MyFread(ptr, size, count);
    }

    /** The part of my_fread's round that looks for the completion; the round goes on only if there is one. */
    method Visit(head: u32) returns (go: bool)
      requires Valid() && (isFirst == 0 ==> head == cring.head)
      modifies this`isFirst, this`fiRead
      ensures Valid() && Phase() == if old(Phase()).Waiting? then S.Waiting else S.Visited
      ensures go <==> old(Phase()).Visited? || (old(Phase()).Posted? && old(Phase()).res >= 0)
      ensures go ==> isFirst == 1
    {
      if isFirst == 0 && head == cring.tail {
        return false;
      }
      if isFirst == 0 {
        var cqe := cring.cqes[Slot(head, cring.cqes.Length)];
        fiRead := cqe.userData;
        isFirst := 1;
        if cqe.res < 0 {
          return false;
        }
      }
      return true;
    }

    /** my_fread of device.cpp: one read at the cursor, of `size * count` bytes as `unsigned long` has it. */
    method MyFread(ptr: array<byte>, size: nat, count: nat) returns (bytesRead: nat)
      requires Valid()
      requires (size * count) % TWO_64 <= ptr.Length
      requires ptr !in fi.Buffers()
      modifies this`currentBlock, this`currentOffset, this`isFirst, this`fiRead, cring`head, ptr
      ensures Valid()
      ensures var (c, out) := S.Read(old(Cursor()), (size * count) % TWO_64);
              && Cursor() == c
              && bytesRead == |out|
              && ptr[..bytesRead] == out
      ensures forall k :: bytesRead <= k < ptr.Length ==> ptr[k] == old(ptr[k])
    {
      bytesRead := ReadBytes(ptr, (size * count) % TWO_64);
    }

    method ReadBytes(ptr: array<byte>, totalBytes: nat) returns (bytesRead: nat)
      requires Valid()
      requires totalBytes <= ptr.Length && ptr !in fi.Buffers()
      modifies this`currentBlock, this`currentOffset, this`isFirst, this`fiRead, cring`head, ptr
      ensures Valid()
      ensures var (c, out) := S.Read(old(Cursor()), totalBytes);
              && Cursor() == c
              && bytesRead == |out|
              && ptr[..bytesRead] == out
      ensures forall k :: bytesRead <= k < ptr.Length ==> ptr[k] == old(ptr[k])
    {
      if currentBlock >= blocks {
        return 0;
      }
      ghost var start := Cursor();
      var index, offset, head;
      bytesRead, index, offset, head := CopyBlocks(ptr, totalBytes, start);
      currentBlock := index;
      currentOffset := offset;
      cring.head := head;
      assert Cursor() == S.Cursor(start.bytes, start.pos + bytesRead, Phase());
      S.ReadBeforeEnd(start, totalBytes);
    }

    /** How my_fread's locals stand between rounds, when the call began at cursor `start`. */
    ghost predicate Between(start: S.Cursor, bytesRead: nat, index: int, offset: int, head: u32)
      reads this
    {
      && 0 <= index <= blocks && 0 <= offset < 4096 && (index == blocks ==> offset == 0)
      && index * 4096 + offset == start.pos + bytesRead
      && head == Advance(openHead, index)
    }

    /** The first `n` bytes that the cursor can deliver stand at the start of `ptr`. */
    ghost predicate Delivered(ptr: array<byte>, start: S.Cursor, n: nat)
      reads ptr
    {
      && n <= ptr.Length && start.pos + n <= |start.bytes|
      && ptr[..n] == start.bytes[start.pos..start.pos + n]
    }

    /** The copying half of a round of my_fread's loop, and the move to the next block. */
    method CopyRound(ptr: array<byte>, totalBytes: nat, bytesRead: nat, index: int, offset: int, head: u32,
                     ghost start: S.Cursor)
      returns (bytesRead': nat, index': int, offset': int, head': u32)
      requires Valid() && isFirst == 1 && Between(start, bytesRead, index, offset, head) && index < blocks
      requires start.bytes == S.Padded(fi.Contents()) && Delivered(ptr, start, bytesRead)
      requires bytesRead <= totalBytes <= ptr.Length && ptr !in fi.Buffers()
      modifies ptr
      ensures Valid() && fi.Contents() == old(fi.Contents())
      ensures Between(start, bytesRead', index', offset', head')
      ensures Delivered(ptr, start, bytesRead') && bytesRead' <= totalBytes
      ensures forall k :: bytesRead' <= k < ptr.Length ==> ptr[k] == old(ptr[k])
      ensures if bytesRead < totalBytes then bytesRead < bytesRead' else bytesRead == bytesRead'
    {
      var toCopy := fiRead.CopyOut(index, offset, ptr, bytesRead, totalBytes, start.pos);
      bytesRead' := bytesRead + toCopy;
      index', offset', head' := index, offset + toCopy, head;
      if offset' >= 4096 {
        index' := index + 1;
        offset' := 0;
        head' := Wrap32(head + 1);
      }
    }

    /** Where a round may begin. */
    ghost predicate Underway(start: S.Cursor, totalBytes: nat, bytesRead: nat, index: int, offset: int, head: u32)
      requires cring.cqes.Length > 0
      reads this, cring, cring.cqes
    {
      && Between(start, bytesRead, index, offset, head) && index < blocks
      && (bytesRead == 0 || bytesRead < totalBytes)
      && if isFirst == 1 then S.Readable(start)
         else bytesRead == 0 && index == 0 && head == cring.head && Phase() == start.phase
    }

    /** One round of my_fread's loop, and whether there is another. */
    method Round(ptr: array<byte>, totalBytes: nat, bytesRead: nat, index: int, offset: int, head: u32,
                 ghost start: S.Cursor)
      returns (again: bool, bytesRead': nat, index': int, offset': int, head': u32)
      requires Valid() && Underway(start, totalBytes, bytesRead, index, offset, head)
      requires |start.bytes| == blocks * 4096 && start.bytes == S.Padded(fi.Contents())
      requires Delivered(ptr, start, bytesRead)
      requires bytesRead <= totalBytes <= ptr.Length && ptr !in fi.Buffers()
      modifies this`isFirst, this`fiRead, ptr
      ensures Valid() && fi.Contents() == old(fi.Contents())
      ensures Phase() == if old(Phase()).Waiting? then S.Waiting else S.Visited
      ensures Between(start, bytesRead', index', offset', head')
      ensures Delivered(ptr, start, bytesRead') && bytesRead' <= totalBytes
      ensures if again then Underway(start, totalBytes, bytesRead', index', offset', head') && bytesRead < bytesRead'
              else bytesRead' == S.Deliverable(start, totalBytes)
      ensures forall k :: bytesRead' <= k < ptr.Length ==> ptr[k] == old(ptr[k])
    {
      again, bytesRead', index', offset', head' := false, bytesRead, index, offset, head;
      var go := Visit(head);
      if go {
        assert S.Readable(start);
        bytesRead', index', offset', head' := CopyRound(ptr, totalBytes, bytesRead, index, offset, head, start);
        again := bytesRead' < totalBytes && index' < blocks;
      }
    }

    /** The loop of my_fread, on local copies of the position and of the ring's head. */
    method CopyBlocks(ptr: array<byte>, totalBytes: nat, ghost start: S.Cursor)
      returns (bytesRead: nat, index: int, offset: int, head: u32)
      requires Valid() && currentBlock < blocks && start == Cursor()
      requires totalBytes <= ptr.Length && ptr !in fi.Buffers()
      modifies this`isFirst, this`fiRead, ptr
      ensures Valid() && fi.Contents() == old(fi.Contents())
      ensures Phase() == if old(Phase()).Waiting? then S.Waiting else S.Visited
      ensures Between(start, bytesRead, index, offset, head)
      ensures bytesRead == S.Deliverable(start, totalBytes) && Delivered(ptr, start, bytesRead)
      ensures forall k :: bytesRead <= k < ptr.Length ==> ptr[k] == old(ptr[k])
    {
      bytesRead := 0;
      head, index, offset := cring.head, currentBlock, currentOffset;
      var again;
      again, bytesRead, index, offset, head := Round(ptr, totalBytes, bytesRead, index, offset, head, start);
      while again
        invariant Valid() && fi.Contents() == old(fi.Contents())
        invariant Phase() == if old(Phase()).Waiting? then S.Waiting else S.Visited
        invariant Between(start, bytesRead, index, offset, head)
        invariant Delivered(ptr, start, bytesRead) && bytesRead <= totalBytes
        invariant if again then Underway(start, totalBytes, bytesRead, index, offset, head)
                  else bytesRead == S.Deliverable(start, totalBytes)
        invariant forall k :: bytesRead <= k < ptr.Length ==> ptr[k] == old(ptr[k])
        decreases totalBytes - bytesRead, again
      {
        again, bytesRead, index, offset, head := Round(ptr, totalBytes, bytesRead, index, offset, head, start);
      }
    }
  }

  /** The file is read to its end when the cursor is at the end of the stream. */
  lemma AtEnd(mf: MyFile)
    requires mf.Valid()
    ensures mf.Cursor().pos == |mf.Cursor().bytes| <==> mf.currentBlock == mf.blocks
  {
  }

  /** The condition of cat's loop: the next `chunk` bytes. */
  method ReadChunk(mf: MyFile, buffer: array<byte>, chunk: nat) returns (more: seq<byte>)
    requires mf.Valid() && 0 < chunk <= 4096 == buffer.Length && buffer !in mf.fi.Buffers()
    modifies mf, mf.cring`head, buffer
    ensures mf.Valid() && (mf.Cursor(), more) == S.Read(old(mf.Cursor()), chunk)
  {
    assert (1 * chunk) % TWO_64 == chunk;
    var bytesRead := mf.MyFread(buffer, 1, chunk);
    more := buffer[..bytesRead];
  }

  /** cat's loop over my_fread with chunks of any size (the program's are `sizeof` a pointer, 8 bytes). */
  method Cat(mf: MyFile, chunk: nat) returns (out: seq<byte>)
    requires mf.Valid() && 0 < chunk <= 4096
    modifies mf, mf.cring`head
    ensures mf.Valid()
    ensures out == S.CatOutput(old(mf.Cursor()))
    ensures S.Readable(old(mf.Cursor())) ==> mf.currentBlock == mf.blocks
  {
    var buffer := new byte[4096];
    out := [];
    ghost var start := mf.Cursor();
    ghost var c := start;
    while true
      invariant mf.Valid() && mf.Cursor() == c && S.Drained(start, c, out)
      decreases |start.bytes| - c.pos
    {
      S.DrainStep(start, c, out, chunk);
      var more := ReadChunk(mf, buffer, chunk);
      c := mf.Cursor();
      if |more| == 0 {
        break;
      }
      out := out + more;
    }
    AtEnd(mf);
  }

  method AllocBlocks(n: nat) returns (bufs: seq<array<byte>>)
    ensures |bufs| == n
    ensures forall i :: 0 <= i < n ==> fresh(bufs[i]) && bufs[i].Length == 4096
    ensures forall i, j :: 0 <= i < j < n ==> bufs[i] != bufs[j]
  {
    bufs := [];
    while |bufs| < n
      invariant |bufs| <= n
      invariant forall i :: 0 <= i < |bufs| ==> fresh(bufs[i]) && bufs[i].Length == 4096
      invariant forall i, j :: 0 <= i < j < |bufs| ==> bufs[i] != bufs[j]
    {
      var buf := new byte[4096];
      bufs := bufs + [buf];
    }
  }

  /** The file_info of a file of `fileSz` bytes: the splitting loop, over fresh blocks. */
  method NewFileInfo(fileSz: nat) returns (fi: FileInfo)
    requires fileSz < TWO_31
    ensures fresh(fi) && fresh(fi.iovecs) && fresh(fi.Buffers())
    ensures fi.Valid() && fi.DistinctBuffers() && fi.iovecs.Length == BlockCount(fileSz, 4096)
    ensures IsSplit(fileSz, 4096, fi.Contents()) && Sound(fi.Contents())
  {
    LengthsShape(fileSz, 4096);
    BlockCountExactIff(fileSz, 4096);
    var bufs := AllocBlocks(BlockCount(fileSz, 4096));
    var iovecs := SplitFile(fileSz, 4096, bufs);
    assert forall i :: 0 <= i < iovecs.Length ==> iovecs[i] == iovecs[..][i];
    fi := new FileInfo(fileSz, iovecs);
  }

  /** my_fopen up to the wait: the file_info is built and the request is with the kernel. */
  method OpenFile(fileSz: nat, entries: nat, counter: u32)
    returns (mf: MyFile, ghost initial: seq<Iovec<seq<byte>>>)
    requires fileSz < TWO_31 && IsRingSize(entries)
    ensures fresh(mf) && fresh(mf.cring) && fresh(mf.cring.cqes) && fresh(mf.fi.Buffers())
    ensures mf.Valid() && mf.fi.DistinctBuffers() && mf.isFirst == 0
    ensures mf.blocks == BlockCount(fileSz, 4096)
    ensures mf.fi.Contents() == initial && IsSplit(fileSz, 4096, initial) && Sound(initial)
    ensures mf.Cursor() == S.Cursor(S.Padded(initial), 0, S.Waiting)
    ensures mf.openHead == counter && mf.cring.tail == counter
  {
    var fi := NewFileInfo(fileSz);
    var cring := new CompletionRing(entries, counter);
    mf := new MyFile(BlockCount(fileSz, 4096), cring, fi);
    initial := fi.Contents();
  }

  /**
   my_fopen of host.cpp: returns once the kernel, after `pauses` rounds of the wait, has read `res` bytes of the
   file (or failed, `res < 0`) and posted the completion.
   */
  method MyFopen(content: seq<byte>, res: int, pauses: nat, entries: nat, counter: u32)
    returns (mf: MyFile, ghost initial: seq<Iovec<seq<byte>>>)
    requires |content| < TWO_31 && res <= |content| && IsRingSize(entries)
    ensures fresh(mf) && fresh(mf.cring)
    ensures mf.Valid() && mf.blocks == BlockCount(|content|, 4096)
    ensures IsSplit(|content|, 4096, initial) && Sound(initial)
    ensures var data := if res < 0 then [] else content[..res];
            mf.Cursor() == S.Cursor(S.Padded(Scatter(initial, data)), 0, S.Posted(res))
    ensures mf.openHead == counter && mf.cring.tail == Wrap32(counter + 1)
  {
    mf, initial := OpenFile(|content|, entries, counter);
    mf.AwaitCompletion(pauses, if res < 0 then [] else content[..res], res);
  }

  ghost predicate Served(fi: FileInfo, cring: CompletionRing, counter: u32, contents: seq<Iovec<seq<byte>>>, res: int)
    reads fi.iovecs, fi.Buffers(), cring, cring.cqes
  {
    && fi.Contents() == contents
    && cring.tail == Wrap32(counter + 1)
    && cring.cqes.Length > 0
    && cring.cqes[Slot(counter, cring.cqes.Length)] == Cqe(fi, res)
  }

  /** The kernel serves the one request: it transfers `data` and posts the result. */
  method Serve(fi: FileInfo, cring: CompletionRing, data: seq<byte>, res: int)
    requires fi.Valid() && fi.DistinctBuffers() && Sound(fi.Contents()) && cring.cqes.Length > 0
    modifies fi.Buffers(), cring`tail, cring.cqes
    ensures Served(fi, cring, old(cring.tail), Scatter(old(fi.Contents()), data), res)
  {
    assert fi.Contents()[0..] == fi.Contents();
    fi.Readv(0, data);
    assert fi.Contents() == Scatter(old(fi.Contents()), data);
    cring.Post(Cqe(fi, res));
  }

  /**
   The program on one file. A failed read prints nothing; a read of `res` bytes prints whole blocks that begin with
   them and go on with what the buffers held before (`initial`). That is the file exactly when the file ends on a block
   boundary and the buffers held what was not read. Draining the file leaves the ring's head as many completions past
   its start as there are blocks, though only one was posted.
   */
  method CatFile(content: seq<byte>, res: int, pauses: nat, entries: nat, counter: u32, chunk: nat)
    returns (mf: MyFile, out: seq<byte>, ghost initial: seq<Iovec<seq<byte>>>)
    requires |content| < TWO_31 && res <= |content| && IsRingSize(entries) && 0 < chunk <= 4096
    ensures IsSplit(|content|, 4096, initial) && Sound(initial) && |Gather(initial)| == |content|
    ensures res < 0 ==> out == []
    ensures res >= 0 ==> |out| == BlockCount(|content|, 4096) * 4096 && content[..res] <= out
    ensures res >= 0 ==> out == S.Padded(Scatter(initial, content[..res]))
    ensures res >= 0 ==> (out == content <==> |content| % 4096 == 0 && Gather(initial)[res..] == content[res..])
    ensures res >= 0 ==> (Lag(mf.cring.head, mf.cring.tail) <= 1 <==> BlockCount(|content|, 4096) <= 1)
  {
    mf, initial := MyFopen(content, res, pauses, entries, counter);
    SplitFacts(|content|, 4096, initial);
    out := Cat(mf, chunk);
    if res >= 0 {
      LengthsShape(|content|, 4096);
      BlockCountExactIff(|content|, 4096);
      S.PaddedAfterRead(|content|, initial, content[..res]);
      S.PaddedIsFileIff(content, initial, res);
      AdvanceIsSum(counter, mf.blocks);
      LagAfterBlocks(counter, mf.blocks);
    }
  }

  lemma LagAfterBlocks(counter: u32, blocks: nat)
    requires blocks < TWO_31
    ensures Lag(Wrap32(counter + blocks), Wrap32(counter + 1)) <= 1 <==> blocks <= 1
  {
    WrapCases(counter + blocks);
    WrapCases(counter + 1);
    WrapCases(Wrap32(counter + 1) + (TWO_32 - Wrap32(counter + blocks)));
  }
}
