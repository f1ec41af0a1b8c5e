# Models and proofs for the malloc lab, the tiny shell and the number sorter

This project models three programs of the course repository in Dafny and proves what they
promise.

**The malloc package (`lab3`).** `RawMemory` and `MemLib` model the heap as bytes with a movable
break. `Allocator.Mm` is `mm.c` on that memory: an implicit list with boundary tags, next-fit
search, splitting, four-case coalescing, heap extension and copying `realloc`, reading and writing
words through the same pointer macros in the same order. Every method is proved against a function
of `BlockList`, which describes the heap as a list of blocks, and it is proved that no payload byte
of a live block changes. `BlockList`, `HeapLaws` and `TraceModel` then prove what holds of every
heap and of every run: the heap stays well formed and fully coalesced, next fit finds the nearest
fitting block, failure has an exact condition and changes nothing, `free` undoes `malloc`, and
freeing everything leaves one block. `Driver` runs the lab's own checker against the allocator:
`eval_mm_valid` reports success exactly when the heap sufficed and no `REALLOC` met a comparison of
signed characters, and `eval_mm_util` returns a number below 1.

**The shell (`lab4`).** `JobTable` models the job list and its helpers in place. `ShellMachine` is
a state machine in which the main thread and the three signal handlers advance by single reads and
writes of the job list, in any interleaving. Nothing blocks SIGCHLD around `addjob` (the mask at
`lab4/tsh.c:214` holds SIGTSTP, although the comments say SIGCHLD), so a child may be reported
before its job is recorded; still at most one job is in the foreground, none is at the prompt, and
keyboard signals go to the foreground job or to nobody, and `fgpid` is exact in every run without a
race. `ForegroundWait` says exactly when the shell comes back from a foreground command or from
`fg`: after a report of its job that counts, and only then. A report does not count before `addjob`
has found a slot, and neither does a stop that comes before the main thread writes the state FG,
which overwrites it; without a further report the shell then waits for ever. Further runs show what
the races cost: a job that ends while `fg` holds its slot hides the foreground job from the
keyboard, and a pid reused by `fork` breaks the prompt.
`CommandLine` models `parseline` in
its static buffer and proves that parsing inverts typing.

**Numbers (`hw6`) and the sampler (`lab3/fcyc.c`).** `NumberText`, `NumberFile` and `BubbleSort`
model the chunked reader, the digit printer and the counting bubble sort, with exact conditions for
a file to read back. `Sampler` proves that the online K-best sampler keeps the smallest samples.

Three places where code and documentation differ are modelled as coded and proved as such:
`readNumbers` cuts tokens at 512-byte boundaries, `eval_mm_valid` can raise a false alarm, and
`mm_malloc` serves huge requests whose rounding wraps with a small block.

To check the whole project, run `dafny verify dfyconfig.toml`.

## Model

| member | source | states |
|---|---|---|
| RawMemory.Put | lab3/mm.c:43 | writing a word changes its four bytes only, and the word then reads back |
| RawMemory.DigitsUnique | lab3/mm.c:42 | equal words have equal bytes: the bytes written are determined by the value |
| RawMemory.Fill | lab3/mdriver.c:614 | `memset`: every byte of the area is the given one, all others are untouched |
| RawMemory.Copy | lab3/mm.c:232 | `memcpy` between areas that do not overlap: the destination equals the source, all else is untouched |
| MemLib.MemoryModel.constructor | lab3/memlib.c:25-35 | the heap starts empty, with its break at the start |
| MemLib.MemoryModel.ResetBrk | lab3/memlib.c:48-51 | the heap is empty again |
| MemLib.MemoryModel.Sbrk | lab3/memlib.c:58-69 | fails exactly for a negative increment or one past the limit, and then the break stays; otherwise returns the old break |
| BlockList.AdjustedSizeCorrect | lab3/mm.c:114-117 | the block size is the least multiple of 8 that is at least 16 and has room for the request and its tags, if and only if rounding does not wrap |
| BlockList.FirstFitIsLeast | lab3/mm.c:295-302 | one search loop stops at the first fitting block of its range, or finds that none fits |
| BlockList.PlaceWellFormed | lab3/mm.c:267-282 | placing a block, split or not, keeps the heap tiled, coalesced and its next-fit pointer on a block |
| BlockList.PlaceAllocates | lab3/mm.c:267-282 | the placed block is as large as asked or 8 bytes larger, lies in the free block, and is the only allocated block that is new |
| BlockList.CoalesceShaped | lab3/mm.c:161-198 | merging keeps the blocks a tiling of the same range and moves a next-fit pointer off the inside of the merged block |
| BlockList.CoalesceCoalesces | lab3/mm.c:161-198 | if free neighbours met only around the freed block, none meet any more, in all four cases |
| BlockList.CoalesceKeepsAllocated | lab3/mm.c:161-198 | merging neither adds nor removes an allocated block |
| BlockList.ExtendWellFormed | lab3/mm.c:243-260 | a grown heap is well formed, ends with a free block of at least the added size, and has the same allocated blocks |
| BlockList.MallocCorrect | lab3/mm.c:99-131 | `mm_malloc` keeps the heap well formed; it returns NULL and changes nothing, or an 8-aligned payload inside the heap with room for the request, apart from every allocated block, which all remain |
| BlockList.FreeWellFormed | lab3/mm.c:138-152 | `mm_free` keeps the heap well formed and its extent, and exactly the freed block is no longer allocated |
| BlockList.StillLive | lab3/mm.c:223-229 | a live block keeps its place and size while another one is allocated, so `mm_realloc` still finds the old one |
| BlockList.InitialWellFormed | lab3/mm.c:74-91 | after `mm_init` the heap is well formed: the prologue and one free block of 4096 bytes, with the next-fit pointer on the prologue |
| Allocator.TagReads | lab3/mm.c:39-55 | reading header or footer gives back the size and allocated bit that were packed into it |
| Allocator.TagsSurvivePayloadWrites | lab3/mm.c:42-55 | a caller writing inside a payload damages no header or footer |
| Allocator.Splice | lab3/mm.c:39-55 | rewriting a run of blocks in place yields a heap that represents the spliced list when the new run is tagged and no byte outside the run changed |
| Allocator.SpliceKeepsLive | lab3/mm.c:39-55 | rewriting a run of free blocks keeps every allocated block and its payload bytes |
| Allocator.PlaceTags | lab3/mm.c:267-282 | the writes of `place` tag exactly the blocks that replace the free one, within its extent |
| Allocator.CoalesceTags | lab3/mm.c:161-190 | although it re-reads tags it has just overwritten, `coalesce` leaves one block spanning the freed one and its free neighbours, and returns its address |
| Allocator.NeighbourTags | lab3/mm.c:163-165 | the tags `coalesce` reads are those of the two neighbours, where the epilogue stands for a missing right one |
| Allocator.CopyBounds | lab3/mm.c:230-232 | the `memcpy` of `mm_realloc`, which runs past the old payload, stays in the heap, fits the new payload and does not overlap |
| Allocator.HeapPassesCheck | lab3/mm.c:313-385 | on every heap the operations leave, each block is aligned, its header and footer are its size plus the allocated bit, and prologue and epilogue are intact |
| Allocator.Mm.Place | lab3/mm.c:267-282 | the memory represents the list with the block placed, and all live payloads are as before |
| Allocator.Mm.Coalesce | lab3/mm.c:161-198 | the memory represents the merged list, the next-fit pointer follows, and all live payloads are as before |
| Allocator.Mm.FindFit | lab3/mm.c:288-305 | walking the tags finds the block that next fit promises; on NULL the next-fit pointer is back where it was |
| Allocator.Mm.ExtendHeap | lab3/mm.c:243-260 | the heap grows by the rounded size and is coalesced, or NULL is returned and not a byte has changed |
| Allocator.Mm.Init | lab3/mm.c:74-91 | succeeds exactly when there is room for 4112 bytes, and then leaves the initial heap; with room for 16 bytes only it fails but leaves a heap without a free block, and with less it leaves nothing |
| Allocator.Mm.Malloc | lab3/mm.c:99-131 | memory, next-fit pointer and result follow the block-list operation, also on a first call whose `mm_init` fails for lack of a block; live payloads are kept, and NULL on an initialized heap leaves every byte unchanged |
| Allocator.Mm.Free | lab3/mm.c:138-152 | the block is freed and coalesced, all other live payloads are kept, and NULL is ignored |
| Allocator.Mm.Realloc | lab3/mm.c:206-238 | NULL leaves everything unchanged; otherwise the new block starts with the old data up to the smaller payload, and every other live payload is untouched; size 0 gives NULL, and the block is live no more |
| HeapLaws.FindFitIsNearest | lab3/mm.c:288-305 | the block found is the nearest fitting one in circular order from the next-fit pointer, and none is found exactly when no block of the heap fits |
| HeapLaws.MallocFailsExactly | lab3/mm.c:109-130 | NULL if and only if the size is 0, or no free block fits and the break cannot move far enough; then the heap is unchanged |
| HeapLaws.MallocMovesPointer | lab3/mm.c:120-130 | when a free block fits, the next-fit pointer is left on the answer and the break stays; when none fits, the pointer stays where it was and the break moves up by the block size or by 4096 bytes |
| HeapLaws.FreeMovesPointer | lab3/mm.c:192-195 | after `mm_free` the pointer is unmoved if it is still the start of a block, and otherwise at the start of the block around it |
| HeapLaws.ReallocCorrect | lab3/mm.c:206-238 | size 0 gives NULL and exactly the block at the pointer is no longer allocated; NULL for another size means that `mm_malloc` failed and leaves the heap as it was; otherwise one new aligned block with room for the request has replaced the old one, apart from all others, and nothing else that is allocated has changed |
| HeapLaws.ReallocMovesPointer | lab3/mm.c:206-238 | the next-fit pointer ends on the new block when a free block fitted, and otherwise only follows the merging of the old block |
| HeapLaws.FitHoldsRequest | lab3/mm.c:114-130 | whenever the result is not NULL, found or after growing the heap, the free block at that address holds the request if and only if rounding the request did not wrap |
| HeapLaws.WrappedRequestAccepted | lab3/mm.c:114-123 | on every fresh heap a request for 4294967288 bytes is answered with the 4096-byte block |
| HeapLaws.MergeUndoesPlace | lab3/mm.c:161-198 | coalescing what `place` left of a free block rebuilds that block |
| HeapLaws.FreeUndoesMalloc | lab3/mm.c:99-152 | freeing what `mm_malloc` returned restores the block list it started from, or the extended list when the heap had to grow |
| HeapLaws.SizesFillHeap | lab3/mm.c:74-85 | the blocks after the prologue account for all but 16 bytes of the heap |
| HeapLaws.AllFreeIsOneBlock | lab3/mm.c:161-198 | a heap with nothing allocated is one free block |
| TraceModel.AllocOwned | lab3/mdriver.c:604-619 | after an ALLOC every live payload still has a block of its own and nothing else is allocated |
| TraceModel.FreeOwned | lab3/mdriver.c:663-669 | the same after a FREE |
| TraceModel.ReallocOwned | lab3/mdriver.c:621-661 | the same after a REALLOC |
| TraceModel.StepKeepsInv | lab3/mdriver.c:597-669 | every legal request keeps the heap well formed and owned, and the break never moves down |
| TraceModel.RunKeepsInv | lab3/mdriver.c:597-676 | so does every legal trace, of any length |
| TraceModel.EverythingFreed | lab3/mm.c:138-198 | a run that has freed all it allocated, in any order, leaves exactly one free block of the heap size minus 16 |
| TraceModel.LiveBytesFit | lab3/mdriver.c:727-769 | at every point of a run the live bytes plus 8 per live block are at most the heap size minus 16 |
| TraceModel.HighWaterIsLargest | lab3/mdriver.c:729-756 | the high-water mark is the largest total of requested bytes at any point of the trace |
| TraceModel.HighWaterFits | lab3/mdriver.c:729-777 | the high-water mark of a whole trace is at most the final heap size minus 16 |
| Driver.WithoutRangeElements | lab3/mdriver.c:434-449 | removing a range takes out exactly the range that starts at the address |
| Driver.ChecksPass | lab3/mdriver.c:381-429 | the alignment, extent and overlap checks never fire on a payload the allocator returned |
| Driver.OverlapExactly | lab3/mdriver.c:408-416 | the overlap test fires exactly on ranges with a byte in common, unless the new range encloses the old one |
| Driver.RangesAfterRemoval | lab3/mdriver.c:434-449 | after a removal the list again holds exactly the extents of the live payloads |
| Driver.Driver.AddRange | lab3/mdriver.c:381-429 | a range is accepted if and only if it is aligned, inside the heap and neither end lies in a recorded range, and only then recorded |
| Driver.Driver.RemoveRange | lab3/mdriver.c:434-449 | unlinks the first range that starts at the address |
| Driver.ReallocStep | lab3/mdriver.c:621-661 | after a REALLOC the compared bytes all hold the id's low byte and every other payload is still filled with its own |
| Driver.Driver.SameData | lab3/mdriver.c:646-654 | the data check, as a comparison of plain signed characters |
| Driver.Driver.CheckOp | lab3/mdriver.c:597-676 | a request passes if and only if the allocator served it and it is not a REALLOC of an id whose low byte is 128 or more |
| Driver.Driver.EvalMmValid | lab3/mdriver.c:577-685 | over every legal trace the result is 1 if and only if `mm_init` and all requests were served and no such REALLOC occurred |
| Driver.SignedCharFalseAlarm | lab3/mdriver.c:653-660 | for every id with low byte 128 or more there is a legal trace, served in full, that the driver rejects; for other ids the same trace passes |
| Driver.SizesChange | lab3/mdriver.c:727-769 | the running total changes by what the driver adds or subtracts |
| Driver.Driver.UtilLoop | lab3/mdriver.c:713-775 | the loop computes the trace's high-water mark, and stops exactly when a request fails |
| Driver.Driver.EvalMmUtil | lab3/mdriver.c:698-778 | the result is the high-water mark over the final heap size, and is below 1; it exists exactly when the trace can be served |
| JobTable.MaxJidIsLargest | lab4/tsh.c:593-601 | the largest job id of the list, 0 when there is none |
| JobTable.SlotsFound | lab4/tsh.c:648-694 | the searches find the first slot with the pid, with the job id, or in state FG |
| JobTable.AddJobTakes | lab4/tsh.c:604-627 | the first slot without a pid takes the job under the next job id, and the id after 16 or more is 1 |
| JobTable.DeleteJobClears | lab4/tsh.c:630-645 | the slot is emptied, and the next job id is one more than the largest left, or 1 when none is left |
| JobTable.DeleteUndoesAdd | lab4/tsh.c:604-645 | deleting the job just added restores the job list |
| JobTable.JobList.Add | lab4/tsh.c:604-627 | the first free slot takes the job and the next id; refused exactly for a pid below 1 or a full list, and then nothing changes |
| JobTable.JobList.Delete | lab4/tsh.c:630-645 | the list and the next job id become what `DeleteJobClears` says; refused exactly when no slot holds the pid, and then nothing changes |
| JobTable.JobList.FgPid | lab4/tsh.c:648-655 | the pid of the first slot in state FG, or 0 |
| JobTable.JobList.GetJobPid | lab4/tsh.c:658-667 | the first slot with the pid, or NULL |
| JobTable.JobList.GetJobJid | lab4/tsh.c:670-680 | the first slot with the job id, or NULL |
| JobTable.JobList.Pid2Jid | lab4/tsh.c:683-694 | the job id of a pid, or 0 |
| ShellMachine.StepKeepsInv | lab4/tsh.c:196-565 | every step of the main thread, the SIGCHLD handler and the keyboard handlers keeps the invariant of the job list, whatever was interrupted |
| ShellMachine.AtMostOneForeground | lab4/tsh.c:33-40 | in every interleaving at most one slot holds a foreground job, and none does at the prompt |
| ShellMachine.SignalsReachForegroundOnly | lab4/tsh.c:526-565 | when a keyboard handler sends, every foreground job is in the target group and no background job is |
| ShellMachine.FgPidExact | lab4/tsh.c:648-655 | the foreground job is found if and only if no earlier slot was left in state FG without a job |
| ShellMachine.WaitsUntilReported | lab4/tsh.c:448-465 | no run leaves `waitfg` unless its own process is reported or the shell exits |
| ShellMachine.ReturnsOnceReported | lab4/tsh.c:458-518 | when the shell is in the loop of `waitfg` and its process is then reported, stopped or ended, every run with two more steps of the main thread comes to the prompt |
| ShellMachine.EarlyReportLost | lab4/tsh.c:214-240 | in every state of every run, a report that comes before `addjob` has found a slot has no effect |
| ShellMachine.EarlyReportHangs | lab4/tsh.c:214-244 | for every pid, a foreground command whose child is reported that early leaves the shell waiting for a process that has already been reported |
| ForegroundWait.AwaitingStep | lab4/tsh.c:236-465 | until a report of the job counts, no step of any thread lets the shell give up waiting for it |
| ForegroundWait.CountedReleases | lab4/tsh.c:486-510 | a report that counts takes the job out of the foreground for good, wherever the main thread is |
| ForegroundWait.ReleasedStep | lab4/tsh.c:236-465 | after it no step undoes that, and every step of the main thread comes closer to the prompt |
| ForegroundWait.CommandComesBackExactly | lab4/tsh.c:216-246 | in every run after the fork of a foreground command, the prompt comes only after a report of the child that counts, and at the latest 20 steps of the main thread after it |
| ForegroundWait.FgComesBackExactly | lab4/tsh.c:383-391 | the same for `fg` from the moment it has found its job; a slot that has lost its job holds it for at most 20 steps |
| ForegroundWait.StopOverwritten | lab4/tsh.c:389-428 | in every state of every run, a stop reported just before `addjob` or `fg` writes the state of that job leaves no trace after the write |
| ForegroundWait.StopAtRecordHangs | lab4/tsh.c:613-614 | for every pid, a foreground command whose child stops while it is being recorded leaves the shell waiting for a process that has already been reported |
| ShellMachine.FgPidFindsForeground | lab4/tsh.c:648-655 | in every run in which no job's end is reported while that job is being recorded or continued, `fgpid` finds the foreground job whenever there is one, and nothing else |
| ShellMachine.AddJobUninterrupted | lab4/tsh.c:604-627 | the steps of `addjob`, run without interruption, do what the routine does |
| ShellMachine.DeleteJobUninterrupted | lab4/tsh.c:500-510 | the steps that follow a report of a child's end amount to `deletejob` |
| ShellMachine.StopUninterrupted | lab4/tsh.c:488-499 | a reported stop marks the first slot with that pid stopped, and changes nothing else |
| ShellMachine.BgFgUninterrupted | lab4/tsh.c:364-433 | run without interruption, `bg` and `fg` find the first slot with the pid or job id and change only its state, to BG or FG; `bg` is then at the prompt, and `fg` waits for the pid in that slot |
| ShellMachine.BgFgFindsNone | lab4/tsh.c:367-409 | without such a slot they come back to the prompt and change nothing |
| ShellMachine.FgPidUninterrupted | lab4/tsh.c:526-533 | a keyboard handler run without interruption signals what `fgpid` returns, or nobody |
| ShellMachine.ReusedPidBreaksPrompt | lab4/tsh.c:214-244 | if `fork` may return a pid whose stale record is still in the list, some run shows the prompt with a job in the foreground |
| ShellMachine.LeftoverHidesForeground | lab4/tsh.c:386-390 | with fresh pids only, some run leaves a cleared slot in state FG, and `fgpid` then misses the foreground job |
| CommandLine.WordsRoundTrip | lab4/tsh.c:262-300 | splitting a rendered line gives back exactly the words that were rendered, whatever the spacing |
| CommandLine.ParseInvertsTyping | lab4/tsh.c:262-310 | parsing a typed line gives back its words, bare or quoted; a last word that starts with `&` is dropped and asks for the background |
| CommandLine.UnclosedQuoteLost | lab4/tsh.c:277-300 | a quoted word that is never closed is dropped, and the words before it are kept |
| CommandLine.StringAtIsCString | lab4/tsh.c:286-287 | a word followed by the NUL written for it reads as that C string |
| CommandLine.Parser.NextWord | lab4/tsh.c:272-298 | the search finds the next word of the line in the buffer, or that there is none |
| CommandLine.Parser.StoreWord | lab4/tsh.c:286-288 | cutting off a word damages neither the strings already in `argv` nor the rest of the line |
| CommandLine.Parser.ParseLine | lab4/tsh.c:262-310 | the C strings `argv` points to at the end are exactly the words of the line, closed by NULL, and the result says whether the background was asked for |
| BubbleSort.SwapRemovesOne | hw6/sortfile.c:161-184 | swapping neighbours that are out of order removes exactly one inversion |
| BubbleSort.SortedHasNone | hw6/sortfile.c:136-148 | a sorted array has no inversion |
| BubbleSort.SortedMeans | hw6/sortfile.c:131-134 | sorted is non-decreasing for one direction and non-increasing for the other |
| BubbleSort.BubbleUp | hw6/sortfile.c:143-145 | one pass settles one more element, keeps the elements and accounts for every swap |
| BubbleSort.Sort | hw6/sortfile.c:136-148 | a sorted permutation in either direction, with exactly as many swaps as there were inversions |
| NumberText.SplitJoin | hw6/fileio.c:48-70 | cutting a text in two changes its tokens only if a token is cut, and then adds one |
| NumberText.ChunkedExact | hw6/fileio.c:48-103 | reading in 512-byte chunks finds one token more for each boundary inside a token, and the right tokens exactly when there is none |
| NumberText.CutsMeans | hw6/fileio.c:48 | no token is cut exactly when no multiple of 512 bytes ends inside a word |
| NumberText.SplitLayout | hw6/fileio.c:64-101 | words without space, newline and tab, set apart by any runs of these three characters, are split into exactly these words |
| NumberText.DecimalToken | hw6/fileio.c:86 | white space, a sign and decimal digits convert to the number they spell, and what follows is ignored |
| NumberText.HexToken | hw6/fileio.c:77-84 | white space, a sign, an optional prefix and hexadecimal digits of either case convert to the number they spell, and what follows is ignored |
| NumberText.EmptyToken | hw6/fileio.c:77-86 | a token without a digit where one is expected converts to 0 |
| NumberText.HexBranchesAgree | hw6/fileio.c:77-84 | the branch for tokens that start with 0x makes no difference |
| NumberText.AccumulateDigits | hw6/fileio.c:146-165 | reading digits inverts writing them |
| NumberText.NumeralReads | hw6/fileio.c:136-172 | what is written is the sign and the upper-case digits of the number without a leading zero; for the smallest `int`, a sign and one character |
| NumberText.IntMinUnread | hw6/fileio.c:141-144 | the smallest `int` is written as a sign and one character, and reads back as 0 |
| NumberText.TokenRoundTrip | hw6/fileio.c:77-86 | a written number reads back in the same radix if and only if it is not the smallest `int` |
| NumberFile.SplitWritten | hw6/fileio.c:136-174 | the tokens of a written file are the numerals of its numbers |
| NumberFile.NumbersWritten | hw6/fileio.c:48-174 | the numbers converted from the chunks of a written file are the written ones if and only if no chunk boundary falls inside a numeral and the smallest `int` is not among them |
| NumberFile.RereadExact | hw6/fileio.c:39-174 | the reader returns the numbers that were written, without overrunning its token buffer, if and only if in addition every number of a decimal file lies between -99999999 and 999999999 |
| NumberFile.BoundaryBreaksNumber | hw6/fileio.c:48 | 111 followed by 170 times 11 does not read back |
| NumberFile.NumeralLength | hw6/fileio.c:57-71 | a numeral fits the 10-byte token buffer in hex always, and in decimal exactly from -99999999 to 999999999 |
| NumberFile.ReadToken | hw6/fileio.c:64-71 | the token at the front of the text is copied, without leaving the 10-byte buffer |
| NumberFile.ReadChunk | hw6/fileio.c:50-102 | the numbers of a chunk are appended to the array, which always has room for one more |
| NumberFile.ReadNumbers | hw6/fileio.c:26-110 | -1 when the file cannot be opened; otherwise the array holds the numbers of the file's chunks, one more than the file has tokens for every token cut by a boundary, and exactly those of the file's tokens when none is cut |
| NumberFile.PutDigits | hw6/fileio.c:146-165 | the buffer, filled from its end, holds the digits of the number and never runs out |
| NumberFile.WriteNumbers | hw6/fileio.c:126-175 | the file holds the numerals, one per line, with the sign in front |
| NumberFile.WrittenSnoc | hw6/fileio.c:136-174 | each further number adds its numeral and a newline to the file |
| NumberFile.SortFile | hw6/sortfile.c:70-87 | the output holds the sorted permutation of the numbers read; nothing is written when the input cannot be opened |
| NumberFile.SortedFileRereads | hw6/sortfile.c:70-80 | the reader returns the sorted numbers of the input from the output if and only if no boundary of the output cuts a numeral, the input does not hold the smallest `int`, and for decimal output its numbers lie between -99999999 and 999999999 |
| NumberFile.SortAndReread | hw6/sortfile.c:70-80 | running the program and then the reader on its output gives the sorted permutation of the input under exactly these conditions, for every output the reader may be given |
| NumberFile.WrittenIsReadable | hw6/fileio.c:57-71 | the output meets the reader's limit on token lengths, unless a decimal number needs more than nine characters |
| Sampler.SortAllSorts | lab3/fcyc.c:81-87 | inserting one sample after another sorts them and loses none |
| Sampler.BestAreSmallest | lab3/fcyc.c:64-88 | the kept samples are the smallest ones, as a multiset, in increasing order |
| Sampler.BestIsMinimum | lab3/fcyc.c:162 | the first kept sample is the minimum of all samples seen |
| Sampler.BestStep | lab3/fcyc.c:67-88 | the best samples after one more sample depend only on the best before it |
| Sampler.ConvergedMeans | lab3/fcyc.c:93-98 | convergence means that at least K of the samples are at most the smallest one times 1 plus the tolerance |
| Sampler.KBest.AddSample | lab3/fcyc.c:67-88 | the array again holds the best of all samples seen, the new one included |
| Sampler.KBest.HasConverged | lab3/fcyc.c:93-98 | true exactly when the K best of all samples lie within the tolerance |
| Sampler.KBest.Fcyc | lab3/fcyc.c:129-168 | stops at the first sample count that converges or reaches the limit, within max(1, `maxsamples`) samples, and returns the minimum of all of them |

## Left out

The malloc package:

- Addresses are mathematical integers that index one byte array, and the heap starts at a multiple of 8; pointers do not wrap. Sizes are 32-bit, as in the `-m32` build: the rounding of a request and the conversion to `int` in `mem_sbrk` are modelled with their wrap-around.
- Allocator.Mm.Malloc: requires a request below 2^32 - 15, because beyond that rounding wraps and `place` may be asked for a block smaller than its own tags; `BlockList.AdjustedSizeCorrect` and `HeapLaws.FitHoldsRequest` give the exact limit. `Mm.Realloc` requires the same.
- Allocator.Mm.Free: the block must be live, as C demands; the call of `mm_init` at lines 145-147 cannot happen for a live block and is omitted.
- `mm_malloc` initializes an unused heap and ignores whether that worked; the model follows it when there is room for the first 16 bytes. With less room the C code goes on with the pointer -1.
- Memory returned by `mem_init` has defined (zero) contents here; no proof depends on it.
- `mm_check` and `printblock` print, and are commented out in the source; what they look for is proved.
- Reading trace files, reporting, the speed runs and the evaluation of the C library's allocator. A trace is a value, and must be legal: positive sizes, and no use of an id that is not live.
- The range list is a sequence: the driver's own allocation of its nodes, which may fail, is not modelled.
- `eval_mm_util` returns a `double`; the model returns the exact quotient. Its total of sizes is unbounded here; that it is below the heap size is proved.

The shell:

- `fork`, `exec`, `kill`, `waitpid` and `sigprocmask` are events that the environment chooses. SIGTSTP is never blocked, the main thread may run between two `waitpid` calls of the handler, and the shell may exit at any point, which covers `quit`, SIGQUIT, the end of the input and failing system calls. The one assumption is that `fork` does not return a pid that is in the job list; `ShellMachine.ReusedPidBreaksPrompt` shows that it is needed.
- In `addjob` the job id, the next job id and the command line are written in one step, and in `do_bgfg` the search for a slot reads pid or job id in one step per slot; no handler reads these fields to decide what to do.
- Global uniqueness of job ids: they start over after 16, so it does not hold.
- Printing, `jobs`, the refusal of `quit` while jobs remain, and the parsing of the argument of `fg` and `bg`.
- CommandLine.Parser.ParseLine: requires a nonempty line without NUL that fits the buffer, and fewer than 128 words; the source checks neither.

The number sorter and the sampler:

- NumberFile.ReadNumbers: requires tokens of at most nine characters, because the source stores a token in ten bytes unchecked. `NumberFile.SortFile` and `NumberFile.SortAndReread` require it of their input, and the latter that its output meets it; `NumberFile.RereadExact` counts a longer token as a failure.
- `readNumbers` looks at the byte after a token before it tests for the end of the chunk, so it reads one byte past a full buffer; the model tests first. The value read is not used.
- `read` returns 512 bytes until the end of the file, as it does for regular files; a failing `write` or `open` of the output is not modelled, and neither are option parsing and printing. On a missing input the source frees an array it never allocated; that call is not modelled.
- `strtol` and `atoi` are modelled for tokens too short to overflow a `long`.
- Measured times are inputs, `double`s are reals, and clearing the cache has no effect on the sampler. The two loops of `fcyc` differ only in the counter they start, and are one loop here.

Not modelled at all: the other labs and homeworks (`lab1`, `lab2`, `hw1` to `hw5`), which are fixed bit
tricks, demonstrations, earlier versions of `hw6`, or programs whose source is not in the repository.
