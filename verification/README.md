# A model of the io_uring file readers

The repository reads files through raw io_uring rings: a program fills a submission entry in memory it shares with a
kernel thread, advances a counter, and later takes a completion from a second ring. On top of that it offers a small
`my_fopen` / `my_fread` pair and several programs that read, print or copy many files. This project models those
programs in Dafny and proves what they deliver, over every interleaving with the kernel, every completion order and
every transfer length the kernel may choose.

| file | what it covers |
|---|---|
| `Words.dfy`, `Bytes.dfy` | C's 32-bit counters, `counter & mask` bit by bit, windows of slots; bytes and buffers |
| `Blocks.dfy` | cutting a file into iovecs, readv() as a transfer into them, printing them again |
| `Fifo.dfy`, `Ring.dfy`, `RingRuns.dfy`, `RingMemory.dfy` | the two rings: unbounded queues, the 32-bit rings in single memory writes, their runs, the code itself on shared arrays |
| `RingIntact.dfy` | what all runs of the rings keep, also those that overwrite requests |
| `Requests.dfy` | that the kernel is only ever asked to read |
| `Drain.dfy` | that every run can be continued until all its requests have been reaped |
| `MainLoop.dfy` | the loop of main(): what a round of it is, and what it prints |
| `Submission.dfy` | one submission against the kernel, with and without a free slot |
| `Stream.dfy`, `Reader.dfy` | `my_fread`: one position in one byte stream, and the class that implements it |
| `Polling.dfy`, `PollingRuns.dfy`, `PollingMemory.dfy` | many files on one ring, completions told apart by `user_data` |
| `Copy.dfy` | the copy loop that writes stale bytes and repairs them |
| `Printer.dfy` | the program that prints each file as its read completes |
| `Layout.dfy` | the sizes mapped for the rings and the addresses formed from counters |

Code that changes memory is modelled as classes and methods on arrays; each of these is tied to a function or a state
machine on values, about which the lemmas speak. In `RingMemory` and `PollingMemory` the kernel's moves are an argument
that the methods interleave with their own stores, and `Valid()` says that everything done so far is a run of the
machine in `Ring` or `Polling`, so that what is proved of all runs of the machine holds of the code.

The kernel's readv() follows the readv() entry of POSIX.1-2017, System Interfaces: the areas of the array are filled in
order, each one completely before the next, and a transfer may be shorter than asked for.

## What the proofs say about the code

Several things the code does are not what its comments suggest. They are proved as they are, each with its exact
condition.

- `my_fread` takes the length of an iovec without subtracting the offset into it (`device.cpp:191-201`), so the last
  block is delivered to its full 4096 bytes. What `cat` prints is the file padded to whole blocks, and it is the file
  itself exactly when the file ends on a block boundary and the buffers held whatever a short read did not bring
  (`Stream.PaddedIsFileIff`, `Reader.CatFile`).
- A completion that reports an error makes one read return nothing; the reads after it deliver whatever the buffers
  hold (`Stream.FailureShowsOnce`).
- The completion ring's head is advanced once for each finished block although a file has one completion
  (`device.cpp:210-214`). After the file has been read, the head has overtaken the tail exactly when the file has two
  blocks or more (`Reader.CatFile`).
- The block count is computed after a cast to `int`. It equals the number of iovecs the splitting loop writes exactly for
  files below 2 GiB (`Blocks.BlockCountExactIff`).
- `submit_to_sq` does not look whether a slot is free. From every state that the rings can come to, whatever requests were
  overwritten before, it appends exactly its own request in all interleavings with the kernel if and only if a slot is free
  when the tail is read (`Submission.SubmissionAppendsIff`), or, seen from the last moment that matters, when the first
  store is made (`Submission.StoresAppendIff`). Otherwise the oldest request is lost if the kernel stands still, and if it
  consumes between the stores it takes a mixture of two requests (`Submission.HalfFilled`,
  `Submission.MixtureIsNeither`).
- The loop of `example/omp_io_uring_manual.c:438-446` does not wait for the request it has made. A file is printed in its own
  round if the kernel serves the request before the queue is seen empty, and otherwise later or not at all; if it always
  does, all files are printed in order (`RingMemory.SharedRings.ReadFiles`).
- `read_from_cq` prints a file's blocks whatever the completion's result was. It prints the file exactly when the buffers
  already held the bytes that were not read, for a failed read all of them (`Fifo.ReadvPrintsFileIff`,
  `RingRuns.StdoutIsFilesIff`).
- In `example/polling.c` the reads that `my_fread` prepares are never submitted. As written, a run that has gone as far as it
  can has returned exactly when every file opened and each was empty or reported as failed
  (`PollingRuns.ReturnsAsWrittenIff`), so that it returns on every run exactly when every file opens and is empty
  (`PollingRuns.AlwaysReturnsAsWrittenIff`). With full reads it has then written the first 4096 bytes of each file, and
  nothing follows (`PollingRuns.FullReadsWriteFirstBlocks`). If prepared reads are submitted, every run returns exactly
  when every file opens, because a file that does not open stays counted (`PollingRuns.AlwaysReturnsIff`).
- The copy loop writes the whole request after a short read. In the middle of a copy the destination need not be a prefix
  of the source (`Copy.StaleByteShows`, `Copy.LeftoverShows`). It is one exactly when every byte put behind the offset is
  the source's own, where the byte is the one that the last write to reach it found in the buffer
  (`Copy.CopyRunPrefixIff`; one round from any state: `Copy.PrefixIff`); and it agrees with the source up to the offset in
  every round (`Copy.CopyRunProgress`).
- `get_completion_and_print` leaves a failed completion at the head of the queue, where every later call finds it again:
  no later file is printed, and `main` still returns 0 (`Printer.Program.Run`, `Printer.PrintsAllIff`).

## Model

The main results come first, then what they rest on, file by file.

| member | source | states |
|---|---|---|
| RingRuns.EveryRun | example/omp_io_uring_manual.c:222-393 | over every interleaving whose submissions find free slots: consumed in submission order, each request a readv of its whole file into its own file_info; submitted = waiting + in flight + completed + reaped, none reaped twice, and each print is the bytes read followed by what that file's own buffers held when allocated |
| RingRuns.RunRefines | example/omp_io_uring_manual.c:222-393 | every such run of the 32-bit rings, one memory store at a time, is a run of the unbounded queues |
| RingRuns.StdoutIsFilesIff | example/omp_io_uring_manual.c:250-254 | the output is the files, in the order reaped, if and only if every failed or short read found its file's missing bytes in the buffers |
| Requests.OnlyReadsAreConsumed | example/omp_io_uring_manual.c:359-366 | over every run, also with requests overwritten field by field, all that the kernel is handed are readv requests without flags |
| Submission.SubmissionAppendsIff | example/omp_io_uring_manual.c:355-374 | from every state that any run leads to, also after requests have been overwritten: every interleaving of one submission with the kernel appends exactly its own request to what the kernel sees, if and only if a slot is free when the tail is read |
| Submission.StoresAppendIff | example/omp_io_uring_manual.c:359-374 | the same from just before the first store, so that a kernel that has made room by then is soon enough |
| Submission.WholeAppends | example/omp_io_uring_manual.c:355-374 | of each single interleaving, whatever came before: with a slot free at the first store the request is appended and nothing else changes, and a slot free when the tail is read is still free then |
| RingRuns.CountersCount | example/omp_io_uring_manual.c:228-260 | over every run the reaping head has been advanced once for each completion reaped, and the tail once for each posted, modulo 2^32 |
| RingMemory.SharedRings.SubmitToSq | example/omp_io_uring_manual.c:302-393 | on shared arrays the call submits one request, a readv of the whole file just opened into its new file_info, moves the shared tail on by one and reaps nothing; whatever came before, if a slot is free at the first store the kernel's view is the one before plus exactly this request |
| RingMemory.SharedRings.ReadFromCq | example/omp_io_uring_manual.c:222-261 | the call ends; everything posted before it has been reaped, and so has the completion of a request that the kernel serves at once when it begins; the head has moved on by what was reaped and is the tail as it was after exactly those completions were posted, so it never passes the tail; nothing is submitted |
| RingMemory.SharedRings.ReadFiles | example/omp_io_uring_manual.c:438-446 | main's loop makes one round, a whole submission and then a whole reap of all posted by then, for each file before the first that does not open, in order, with status 0 if and only if all open; with room only requested files are printed, none twice; and from quiet rings, if the kernel serves each request before the queue is seen empty, the console gains exactly one print for each of these files, in order |
| Drain.EveryRunCanDrain | example/omp_io_uring_manual.c:222-393 | every run with room, cut off anywhere, can be continued without new submissions until nothing waits or is in flight; what has been reaped is then exactly what was submitted |
| Reader.MyFile.MyFread | device.cpp:153-227 | for `size * count` as a 64-bit product: the flat cursor's bytes and new position, the caller's buffer beyond the result untouched, head = head at open + finished blocks modulo 2^32 |
| Stream.ChunkingIndependent | main.cpp:25-27 | any sequence of reads delivers the bytes of one read for their total and ends at the same position |
| Stream.WaitInReadEqualsWaitInOpen | example/io_uring_read.c:318-343 | waiting in the first read gives every read the same result as waiting in open |
| Stream.PaddedIsFileIff | device.cpp:191-201 | the stream after a read of n bytes is the file if and only if the size is a multiple of 4096 and the buffers held the bytes not read (after a complete read there are none) |
| Reader.CatFile | main.cpp:12-36 | on one file: blocks*4096 bytes, those read followed by old buffer contents; the file itself under the exact condition above, for every short read; head past tail iff two blocks or more |
| PollingRuns.EveryRun | example/polling.c:75-98 | over every run: each output is a prefix of its file, whole at the zero-length completion; at most (bytes of all files) + (files) completions |
| PollingRuns.EveryRunIsShort | example/polling.c:75-98 | no run, whatever the kernel does, has more steps than the distance it covers to the end, steps that change nothing aside |
| PollingRuns.AlwaysReturnsIff | example/polling.c:59-98 | given submissions, every run that cannot be continued has left the loop, if and only if every file opened |
| PollingRuns.ReturnsAsWrittenIff | example/polling.c:75-98 | as written, with no submission in the loop: a run that cannot be continued, failing reads included, has left the loop if and only if every file opened and each was empty or reported as failed |
| PollingRuns.AlwaysReturnsAsWrittenIff | example/polling.c:75-98 | as written, and whatever the reads return, every run that cannot be continued has left the loop, if and only if every file opens and is empty |
| PollingRuns.FullReadsWriteFirstBlocks | example/polling.c:19-98 | as written, when every read brings what fits the buffer: a run that has gone as far as it can has written exactly the first min(4096, size) bytes of each file that opened |
| PollingRuns.BufferIsSafe | example/polling.c:80-94 | from a completion until it has been dealt with no request can touch its buffer, for every completion in the queue |
| PollingMemory.Poller.MyFread | example/polling.c:75-101 | the loop is a run of the machine; when it exits, every file was written whole or reported as failed, and those not failed were empty; until it exits each poll that finds a completion deals with it, so min(polls, waiting) are dealt with at least, and enough polls without moves of the kernel leave none waiting |
| Copy.CopyLoop | example/io_uring_cp.c:92-141 | for all kernel results the loop ends with the outcome and leaves the destination, offset and buffer of the byte-exact run; dst[..offset] = src[..offset], dst never longer than src, and dst = src when it is done |
| Copy.CopyRunProgress | example/io_uring_cp.c:92-141 | from any such state and for any buffer, every run keeps the copied prefix and the length bound, ends with dst = src when done, and goes as the sizes alone say |
| Copy.DoneIff | example/io_uring_cp.c:93-141 | for every schedule the loop is done if and only if some number of rounds at its start, each succeeding at the offset it comes to, supplies the missing bytes |
| Copy.OutcomeIff | example/io_uring_cp.c:93-141 | for every schedule the loop dies of a read if and only if the first round that is not fine comes before the end and its read fails, of a write if and only if that read succeeds and the write falls short of it, and is still running if and only if all rounds are fine and have not brought the last byte |
| Copy.CopyRunPrefixIff | example/io_uring_cp.c:92-141 | after any rounds the destination is a prefix of the source if and only if every byte behind the offset is the source's own, the byte being the one that the kernel's results and the first buffer put there |
| Copy.CopyRunBytes | example/io_uring_cp.c:92-141 | after any rounds every destination byte is what the buffer held when the last write reached it, and the length is how far the writes reached |
| Printer.Program.Run | example/omp_io_uring_polling.c:180-192 | the output is that of the files before the first failure; the status is 0 exactly when all files opened |
| Printer.PrintsAllIff | example/omp_io_uring_polling.c:180-187 | all files are printed if and only if every short read before the first failure found its missing bytes in memory and nothing from the first failure on has any contents |
| Blocks.SplitReadPrint | example/omp_io_uring_polling.c:92-124 | splitting, reading all and printing by the recomputed block count gives back exactly the file, for every size below 2^31 |
| Blocks.BlockCountExactIff | host.cpp:80-83 | the computed block count is the number of iovecs if and only if the size is below 2^31 |
| Layout.RingSizes | host.cpp:219-227 | in both mmap modes all slots of a ring are mapped if and only if its size fits an `int`; the lengths are then the larger ring's, or each ring's own |
| Words.MaskIsResidue | example/omp_io_uring_manual.c:358 | `&` with a mask of ones is the residue modulo the ring size, for every counter |
| Words.SlotIsResidue | example/omp_io_uring_manual.c:243 | the slot of a counter is unaffected by the counter's wrap at 2^32 |
| Words.SlotsDiffer | example/omp_io_uring_manual.c:355-374 | counters less than a ring apart have different slots, also across the wrap |
| Words.WindowFitsIff | example/omp_io_uring_manual.c:355-374 | a window of consecutive counters has distinct slots exactly when it is no longer than the ring |
| Words.WindowPop | example/omp_io_uring_manual.c:243-256 | the slot at `head` holds the oldest element, and `head++` removes just that one from the queue |
| Words.TailAdvances | example/omp_io_uring_manual.c:355-372 | the published tail always differs from the old one, is one further from head, and its old slot is the window's next |
| Words.TailPush | example/omp_io_uring_manual.c:358-374 | a store at `tail & mask` followed by `tail + 1` appends one element and keeps the others |
| Words.AdvanceIsSum | device.cpp:213 | incrementing a 32-bit counter n times adds n modulo 2^32 |
| Blocks.LengthsShape | host.cpp:111-127 | every block but the last is full, the last is not empty, the lengths sum to the file's size |
| Blocks.SplitFile | host.cpp:111-127 | the splitting loop ends having filled exactly `blocks` iovecs with these lengths, in order |
| Blocks.GatherScatter | example/omp_io_uring_manual.c:361-366 | a readv into the iovecs puts the data first and leaves the rest of the described bytes as they were |
| Blocks.ReadThenPrint | example/omp_io_uring_manual.c:250-254 | after a complete or short readv, printing gives the bytes read, then old buffer contents up to the file's size |
| Blocks.FreshPrints | host.cpp:111-127 | a file just split describes the first size bytes of the blocks handed out for it |
| Blocks.PrintBlocks | example/omp_io_uring_manual.c:250-254 | the printing loop emits the described bytes of all blocks in order |
| Fifo.OnePlace | example/omp_io_uring_manual.c:355-374 | a request has at most one place among waiting, in flight and completed |
| Fifo.RequestAsksForFile | example/omp_io_uring_manual.c:359-366 | the request says readv, no flags, offset 0, the file's descriptor, as many iovecs as there are 1024-byte blocks, and the file_info as address and user data |
| Fifo.MemoryIsHandedOut | example/omp_io_uring_manual.c:336-353 | a file_info's buffers hold at first what the blocks handed out for it hold, up to the file's size |
| Fifo.ReadvDelivers | example/omp_io_uring_manual.c:250-254 | the kernel's transfer changes only its own file_info, and what is then printed for it is the bytes read and, behind them, what would have been printed before |
| Fifo.ReadvPrintsFileIff | example/omp_io_uring_manual.c:245-254 | whatever the result, the file is printed if and only if the buffers held the bytes that were not read; a failed read leaves the print as it was |
| Fifo.StepKeeps | example/omp_io_uring_manual.c:222-261 | every event of the queues keeps conservation, order, unique requests, well-formed requests and correct output |
| Ring.StepRefines | example/omp_io_uring_manual.c:222-393 | each memory step of either thread, a first store being made into a free slot, is one event of the unbounded queues and keeps all invariants |
| RingIntact.StepKeepsIntact | example/omp_io_uring_manual.c:222-393 | even in runs that overwrite requests, every slot and completion names a live, well-formed file_info and the completion ring stays in order |
| RingIntact.TailCountsPosted | example/omp_io_uring_manual.c:239-259 | the tail is ahead of the reaping head by the completions posted and not reaped |
| RingIntact.KernelCommutesWithPrinting | example/omp_io_uring_manual.c:253-254 | while a completion is being printed no move of the kernel changes it or its buffers, so printing block by block and at once are the same, as long as no request asks for a transfer into its file_info |
| RingIntact.OldestIsUnaddressed | example/omp_io_uring_manual.c:243-254 | no request does so in any state that runs with room lead to |
| RingIntact.ReapFacts | example/omp_io_uring_manual.c:243-254 | the completion about to be reaped names a live file_info of the shape the printing loop needs |
| Submission.QuietRun | example/omp_io_uring_manual.c:359-374 | with the kernel standing still the nine stores amount to one update of slot, index and tail |
| Submission.SubmitAppendsIff | example/omp_io_uring_manual.c:355-374 | that update appends the request if and only if the ring is not full |
| Submission.WholeCarefulIff | example/omp_io_uring_manual.c:359-374 | a run stays one with room if and only if each submission finds a slot free at its first store |
| Submission.LastSubmission | example/omp_io_uring_manual.c:355-374 | the same of the submission that ends any run from empty rings |
| Submission.HalfFilled | example/omp_io_uring_manual.c:359-366 | in a full ring, consumption after k of the stores takes the oldest request with its first k fields replaced |
| Submission.MixtureIsNeither | example/omp_io_uring_manual.c:359-366 | for requests on different files such a mixture is neither of the two |
| Submission.FullRingLosesRequest | example/omp_io_uring_manual.c:355-374 | with the kernel standing still, two submissions to a one-entry ring leave the second request twice and the first nowhere |
| RingMemory.SharedRings.constructor | example/omp_io_uring_manual.c:228 | fresh rings, counters anywhere, are a start of the machine |
| RingMemory.SharedRings.KernelConsume | example/omp_io_uring_manual.c:367-374 | the kernel's consumption on the arrays is the machine's |
| RingMemory.SharedRings.KernelComplete | example/omp_io_uring_manual.c:239-244 | the kernel's completion on the arrays is the machine's |
| RingMemory.SharedRings.StoreSqeField | example/omp_io_uring_manual.c:359-366 | one store into the SQE, with any kernel moves after it, is a step of the run and does not disturb the request |
| RingMemory.SharedRings.StoreSqe | example/omp_io_uring_manual.c:359-366 | after its seven stores the SQE is ready, whatever the kernel did in between |
| RingMemory.SharedRings.StoreIndex | example/omp_io_uring_manual.c:367 | the index entry is stored for the slot of `tail` |
| RingMemory.SharedRings.PublishTail | example/omp_io_uring_manual.c:368-374 | the shared tail becomes the tail read plus one modulo 2^32, and exactly this file's request counts as submitted |
| RingMemory.SharedRings.ReapOne | example/omp_io_uring_manual.c:242-256 | one round takes the oldest completion, prints its file_info and leaves less to reap |
| RingMemory.SharedRings.ReadFile | example/omp_io_uring_manual.c:438-446 | one round of main's loop is one whole submission of its file and then a whole reap of all posted by then; it uses up at most one of the slots there is room for; from quiet rings, with the request served in time, it prints the file's bytes read and then its memory, and leaves the rings quiet |
| MainLoop.SubmittedFromQuiet | example/omp_io_uring_manual.c:355-374 | a submission from quiet rings leaves one request waiting and the kernel has had no move to make |
| MainLoop.RoundAddsOne | example/omp_io_uring_manual.c:438-446 | a round from quiet rings whose completion came in time has reaped that completion alone and left the rings quiet |
| MainLoop.RoundPrints | example/omp_io_uring_manual.c:438-446 | and what it prints is the bytes read, then what the memory handed out for the file holds |
| MainLoop.CompleteReadsPrintFiles | example/omp_io_uring_manual.c:438-446 | with complete reads the prints of all rounds are the files, one after the other |
| Drain.CanDrain | example/omp_io_uring_manual.c:222-393 | from every state that runs with room lead to, steps of either thread other than new submissions empty both rings |
| Drain.QuietMeansReaped | example/omp_io_uring_manual.c:222-261 | where both rings are empty and nothing is in flight or under way, the reaped requests are the submitted ones |
| Stream.EmptyReadIff | device.cpp:167-189 | a read is empty if and only if it is at the end, asks for nothing, is too early, or reports a failure; so after a wait in open and a success the first read of a non-empty file delivers |
| Stream.ReadTwice | device.cpp:167-226 | two reads deliver what one read of their total does |
| Stream.EarlyReadsAreEmpty | device.cpp:173-174 | without a wait, reads made too early return nothing and lose nothing |
| Stream.FailureShowsOnce | device.cpp:179-186 | after a failed completion one read is empty; a later read delivers bytes exactly when it asks for some before the end |
| Stream.DrainStep | main.cpp:25-27 | cat's loop advances with every read that returns bytes and is complete when one returns none |
| Stream.PaddedBlock | device.cpp:204-205 | a copy out of block `index` at `offset` is the stream at `index*4096 + offset` |
| Stream.GatherIsPrefix | host.cpp:111-127 | the file's own bytes are a prefix of the stream, since only the last block can be short |
| Stream.PaddedAfterRead | device.cpp:191-201 | after a readv of any length the stream starts with the bytes read and is blocks*4096 long |
| Reader.FileInfo.Readv | host.cpp:137-141 | on the heap, the transfer fills the buffers as the specification does, and no other |
| Reader.FileInfo.CopyOut | device.cpp:191-207 | the three clamps and the copy stay inside the block and the caller's buffer and append the stream's next bytes |
| Reader.MyFile.Visit | device.cpp:173-189 | the first visit takes the completion of this file; the round goes on only after a success |
| Reader.MyFile.CopyRound | device.cpp:191-214 | one round keeps index, offset and head in step with the bytes copied and progresses if bytes are wanted |
| Reader.MyFile.Round | device.cpp:170-219 | one round, visit and copy: the loop goes on only with bytes still wanted and there, and otherwise all that the call can deliver has been copied |
| Reader.MyFile.CopyBlocks | device.cpp:170-219 | the loop ends with min(wanted, remaining) bytes of the stream copied, index at most `blocks`, offset below 4096 |
| Reader.MyFile.ReadBytes | device.cpp:167-226 | a call refines the flat read: same bytes, same new position; head = head at open + finished blocks modulo 2^32 |
| Reader.MyFile.AwaitCompletion | host.cpp:159-166 | the wait ends with the request served once, or at once if it was served before |
| Reader.MyFile.WaitInFirst | example/io_uring_read.c:318-343 | only a first read before the end waits, and it finds the request served |
| Reader.MyFile.MyFreadWaiting | example/io_uring_read.c:302-381 | the variant that waits in the first read refines the waiting read of the stream |
| Reader.NewFileInfo | host.cpp:93-127 | the file_info of a file: distinct 4096-byte buffers, split as specified |
| Reader.OpenFile | host.cpp:93-127 | before the wait: position 0, no completion yet |
| Reader.MyFopen | host.cpp:159-169 | open returns with the completion posted, at position 0 of the stream the kernel filled |
| Reader.Cat | main.cpp:25-27 | for every chunk size, cat writes the rest of the stream, or nothing after a failure |
| Polling.SlotForNextRead | example/polling.c:21-23 | with at most 16 files, a completion being handled implies a free SQE for the next read |
| Polling.RequestFitsBuffer | example/polling.c:27-30 | a read for the request can bring exactly up to min(buffer, rest of the file) bytes, and nothing only at the end |
| Polling.InflightIsAlone | example/polling.c:30-37 | a request in the kernel's hands has no completion waiting for its file |
| Polling.OldestIsAlone | example/polling.c:80-88 | the file whose completion is handled has nothing else pending |
| Polling.FillDelivers | example/polling.c:27-30 | the kernel's read changes only its own file's buffer, and there stand the file's next bytes |
| Polling.PendingAfter | example/polling.c:80-94 | a step keeps the multiset of pending files, or removes exactly the file it counts out |
| Polling.ShapeKept | example/polling.c:19-38 | requests carry their file's descriptor, offset and buffer; completions' bytes are the file's next |
| Polling.UniqueKept | example/polling.c:80-94 | at most one request or completion per file at any time |
| Polling.CountedKept | example/polling.c:82-92 | num_files = pending files + files that did not open; handled completions are bounded by the bytes delivered |
| Polling.OutputKept | example/polling.c:85-88 | what was written for file i is exactly its first offset_i bytes |
| Polling.EndedKept | example/polling.c:89-92 | a file with nothing pending was read to its end or reported as failed |
| Polling.StepKeeps | example/polling.c:40-101 | every step of either thread keeps all of these |
| PollingRuns.ZeroMeansDone | example/polling.c:76 | the loop's exit means that every file opened and was written whole or reported as failed |
| PollingRuns.StepIsNearer | example/polling.c:75-98 | any step of either thread with any result brings the end nearer, unless it submits nothing |
| PollingRuns.NoSubmitIsBusy | example/polling.c:75-98 | the bound on the length of runs covers every run of the loop as written |
| PollingRuns.StoppedMeansReturned | example/polling.c:75-98 | where neither thread can do anything more and all files opened, the loop has been left |
| PollingRuns.RunOn | example/polling.c:75-98 | every run can be continued until it stops |
| PollingRuns.Finish | example/polling.c:75-98 | from every reachable state, if all files opened and reads are submitted, the run can be continued to its end |
| PollingRuns.ReturnedMeansEmpty | example/polling.c:75-98 | without submissions, a run that has left the loop had only files that opened and were empty or failed |
| PollingRuns.HaltedIff | example/polling.c:75-98 | a run as written stops exactly where nothing is submitted, in flight or completed; the counter is then what is prepared plus what never opened |
| PollingRuns.FailedStay | example/polling.c:89-92 | nothing is asked for any more for a file once its read was reported as failed |
| PollingRuns.FirstBlocksCanBeWritten | example/polling.c:59-98 | whatever the files are, there is a run with full reads that ends with the first block of each written |
| PollingRuns.RequestsCount | example/polling.c:59-70 | my_fopen prepares exactly one request for each file that opened and none for the others |
| PollingMemory.Poller.constructor | example/polling.c:40-73 | my_fopen leaves one submitted request for each file that opened, and all files counted |
| PollingMemory.Poller.OpenAll | example/polling.c:59-68 | the loop of my_fopen leaves every file as its open() says and one request for each that opened |
| PollingMemory.Poller.OpenOne | example/polling.c:59-68 | a failed open leaves the entry alone and is skipped; a successful one gets its first request |
| PollingMemory.Poller.SetupRead | example/polling.c:19-38 | with an SQE free, one request for the file's descriptor at its offset for as many bytes as its buffer has; nothing when none is free |
| PollingMemory.Poller.Poll | example/polling.c:76-98 | one poll takes the oldest completion off if there is one and deals with it |
| PollingMemory.QuietDrains | example/polling.c:76-98 | polls without moves of the kernel take one completion each until none waits |
| PollingMemory.Poller.WriteOut | example/polling.c:81-86 | the write is a step of the machine |
| PollingMemory.Poller.Update | example/polling.c:82-92 | the offset, the next request and the counter change as in the machine |
| PollingMemory.Poller.MarkSeen | example/polling.c:94 | the completion is removed as in the machine |
| Copy.TransferProgress | example/io_uring_cp.c:98-140 | one round, complete or not, keeps the copied prefix, and extends it when the write covers the read |
| Copy.RoundProgress | example/io_uring_cp.c:94-140 | a round, whichever way it goes, keeps the copied prefix up to the new offset |
| Copy.PrefixIff | example/io_uring_cp.c:98-129 | from any state of the copy, after a round the destination is a prefix of the source if and only if the stale bytes sent and what lay behind the write are the source's own |
| Copy.CopyRunBuffer | example/io_uring_cp.c:98-118 | after any rounds every byte of the reused buffer is what the last read that reached it brought, or the first buffer's |
| Copy.ErrorFreeDoneIff | example/io_uring_cp.c:93-141 | without errors the loop is done if and only if the reads have supplied the missing bytes, and is otherwise as far as they brought it |
| Copy.EndsAfter | example/io_uring_cp.c:116-136 | a loop that dies, or is still running, has its offset where the rounds survived have brought it |
| Copy.FullReadsDoneIff | example/io_uring_cp.c:93-141 | with whole blocks read the loop is done if and only if there are as many rounds as blocks of 4096 |
| Copy.StaleByteShows | example/io_uring_cp.c:98-129 | a run of one short read of a two-byte file leaves the buffer's old byte in the destination |
| Copy.LeftoverShows | example/io_uring_cp.c:98-129 | a round that sends no stale byte can still end with one showing, left behind by an earlier round |
| Copy.AlwaysEnds | example/io_uring_cp.c:93-141 | if every read brings a byte, as many rounds as the file has bytes suffice |
| Copy.EmptyReadsNeverEnd | example/io_uring_cp.c:93-141 | reads that return nothing keep the loop at offset 0 for ever |
| Copy.ReadInto | example/io_uring_cp.c:98-118 | a short read leaves older bytes behind it in the buffer |
| Copy.ReadAndWrite | example/io_uring_cp.c:94-140 | a round on the buffer array leaves outcome, destination, offset and buffer of the specified round, stale tail included |
| Printer.Program.OutputToConsole | example/omp_io_uring_polling.c:49-53 | the character loop writes the first `len` characters in order |
| Printer.Program.GetCompletionAndPrint | example/omp_io_uring_polling.c:60-79 | a success is printed and removed; a failure prints nothing and stays at the head |
| Printer.Program.SubmitReadRequest | example/omp_io_uring_polling.c:106-124 | the file's readv completes behind those already posted, its buffers filled from the file |
| Printer.GoodFilesShowTheirContentsIff | example/omp_io_uring_polling.c:72-75 | the first n files print their contents if and only if each memory held what its short read did not bring |
| Layout.SqSlotsMappedIff | host.cpp:133-142 | all index array slots lie in a mapping exactly when the ring does |
| Layout.CqSlotsMappedIff | device.cpp:180 | all CQE slots lie in a mapping exactly when the ring does |
| Layout.MappedIff | host.cpp:219-227 | the maximum taken in single-mmap mode does not change that condition for either ring |
| Layout.SqeSlotsMapped | host.cpp:254-256 | the SQE of every counter lies in the SQE mapping |
| Layout.SlotsDisjoint | host.cpp:133-142 | slots of counters less than a ring apart do not overlap |

## Left out

- System calls and their failure exits (open, fstat, mmap, io_uring_setup, io_uring_register, io_uring_enter, memory allocation): results that matter are parameters, the others are taken to succeed.
- Weak memory: steps are sequentially consistent; the barriers and the inline assembly of `host.cpp` and `device.cpp` are not modelled.
- RingMemory.SharedRings.SubmitToSq: what becomes of the kernel's view when no slot is free at the first store is stated by module Submission over the machine, not by this contract. The address malloc() returns and the stat of the file are parameters.
- RingMemory.SharedRings.KernelComplete: a request that is not a readv without flags can only fail; none is ever made (`Requests.OnlyReadsAreConsumed`). The kernel posts only while the completion ring has room; its overflow list is not modelled.
- RingMemory.SharedRings.ReadFromCq: the status lines that are printed between the files' bytes are not part of the modelled output. A completion's blocks are printed in one step, with which the kernel's moves commute as long as no request asks for a transfer into that file_info (`RingIntact.KernelCommutesWithPrinting`). In runs with room none does (`RingIntact.OldestIsUnaddressed`); after a request has been overwritten a file can be in flight twice, and a transfer in the middle of its printing is not modelled.
- RingMemory.SharedRings.ReadFiles: the choice of command and the usleep() between the two calls are not modelled; what the kernel does meanwhile counts among its moves before the completion queue is looked at first. That it serves the request in them is a condition of the last clause, since nothing in the code waits for it.
- Reader.MyFile.AwaitCompletion: the spin ends after a number of rounds that is a parameter, standing for the kernel's choice of when to serve.
- Reader.Cat: write() to standard output is taken to write everything; the closing message and my_fclose are not modelled.
- Reader.MyFopen: the SQE stores of `host.cpp:129-148` are those modelled in module Ring for `example/omp_io_uring_manual.c`; here the request is simply with the kernel.
- Printer.Program.GetCompletionAndPrint: an error of io_uring_wait_cqe itself is not modelled, nor is a failing get_file_size.
- Printer.Program.SubmitReadRequest: the retry loop around io_uring_get_sqe is not modelled; the loop of main has at most one request outstanding until the first failure.
- PollingMemory.Poller.MyFread: observed for as many polls as its argument has rounds, since it need not return; write() is taken to write everything.
- More than 16 files in `example/polling.c`, which overruns its array, and its exit for fewer than one.
- Copy.CopyLoop: each submission and wait is one operation; the ring indices of `example/io_uring_cp.c:109` and `:129`, which reduce the tail modulo the entries, are not modelled.
- liburing is taken as documented: io_uring_get_sqe reserves an entry without publishing it, io_uring_submit publishes all reserved entries.
- Files do not change while they are read.
- Files of 2 GiB and more beyond the statement of `Blocks.BlockCountExactIff`: what the loops do with a wrong block count is not modelled.
- submit_write_request of `example/omp_io_uring_manual.c`, the `omp_*_ptr`, string, writer, atomic and one-shot examples, `example/My_read.cpp`, `example/io_uring_poll.cpp` and `example/io_uring_polling.c`: they would add straight-line or duplicate members.
- Timing, statistics and the mutex of `main.cpp`.
