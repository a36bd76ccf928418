# Verified models of the systems problem sets

A Dafny model of the parts of this repository that are complete algorithms with state, and proofs
of what they keep and what they compute. `dafny verify dfyconfig.toml` checks everything.

| files | what they model |
|---|---|
| `PageFormat`, `PageTable` | 4-level x86-64 page tables as a forest in physical memory; the walk of `vmiter`; a separately written processor walk (Intel SDM volume 3A, sections 4.5 and 4.6) |
| `Kalloc` | WeensyOS's page allocator: a function on its bookkeeping, and the allocator's loops over `pages` |
| `VmIter` | `vmiter` as a class over that memory: incremental moves, growing the tables in `map`, the scan of the low half |
| `PtIter` | `ptiter`, the stackless traversal, and the loop that frees a page table while it walks it |
| `PongGame`, `PongBoard`, `PongSolo` | the pong board as a value and as cells and balls that point at each other; runs under any schedule; one ball in closed form, up to the first sticky cell |
| `CxaGuard` | `__cxa_guard_acquire` and `__cxa_guard_release`, one atomic access at a time, any number of threads |
| `PipeStream`, `PipeExchange`, `PipeProgress` | requester and responder over two bounded pipes, one byte at a time |
| `Scheduler` | the process table, `schedule`, `run`, and what exceptions do to them |
| `Stride`, `StrideWide`, `StrideCopy` | the strided read and write loops in size_t arithmetic |
| `ScatterGather`, `ScatterRoundTrip` | the copy loop that rotates over inputs and outputs; gathering what was scattered |
| `HttpResponse` | the incremental HTTP response parser |
| `ShellToken` | the shell's tokenizer |
| `NumberText` | `fill_numbuf`, `strtoul`, `strtol` |
| `Printer`, `Format`, `FormatText`, `PrintRoundTrip` | the conversions of `printer_vprintf`; the text of a format and `vsnprintf`; what every kind of directive prints, said of its text; what is printed can be read again |
| `Arithmetic`, `CString`, `Options`, `Sequences` | shared helpers |

Programs that change state are classes and methods, each proved against a function on values (or a
relation); what the repository promises is then proved about those functions. Protocols are step
functions over all interleavings.

## Results that do not simply say yes

- The pipe exchange can get stuck. `PipeProgress.DeadlockFreeIffFits` gives the exact condition on the
  table and the pipe capacities, and `PipeProgress.ProgramDeadlock` applies it: with the program's own
  table and two pipes of 65536 bytes there is a run that stops with both processes writing.
- `stridecat61` is a permutation exactly if its position never wraps around (`StrideWide.ReadsOnceIff`);
  only strides near 2^64 make it wrap. `ostridecat61` undoes it on every file of a size exactly if the
  position does not wrap and the last row is even (`StrideCopy.AlwaysInvertsIff`). With an uneven last
  row the output is longer than the file; when the position wraps the last byte is never read
  (`StrideWide.LastNeverRead`), so of two files that differ only there at most one is restored
  (`StrideCopy.UnstridedInvertsIff`). `StrideCopy.Counterexamples` names files and
  arguments of both kinds.
- A redirection such as `2>&1` at the very end of a line makes `parse_shell_token` return a pointer one
  past the terminator, and nothing else does (`ShellToken.Advances`). So the loop over a line's tokens
  leaves the text exactly if it comes to a rest that is such a redirection (`ShellToken.LeavesIff`;
  `ShellToken.LineNotRead` shows one). The character at the end is then a digit, so
  every line that ends in a newline is read (`ShellToken.NewlineIsRead`). pset5/sh61.cc:163-165 calls
  `eval_line` on such lines and on a full buffer, so only a full buffer without a newline is affected.
- A conversion of `printer_vprintf` fills its field and no more exactly if what it prints is at most
  2^31 characters longer than its width, or at least 2^32 longer (`Printer.FillsFieldIff`): otherwise the
  width, an int, wraps around and blanks come out. `%#.*x` with 2147483647 and 1 is such a format: it
  prints 2147483646 blanks although it has no width (`Format.FieldOverrun`).

- `strtoul` reads capital letters as digits correctly exactly in bases up to 17 (`NumberText.CapitalsIff`):
  from base 18 on its first test, for characters from `'0'` on, takes `'A'` before the test for letters
  does. In every base above 10 that test also takes `':'` and what follows it for digits
  (`NumberText.OnlyAlphanumericIff`).

## Model

| member | source | states |
|---|---|---|
| `PageTable.SamePageIndexes` | pset4/x86-64.h:56-61 | two addresses have the same four page indexes exactly if they lie in one page of the 48-bit space that the tables translate |
| `PageTable.FreshWalkIff` | pset4/k-vmiter.cc:3-11 | a stop is where a walk from the root ends exactly if it is on the path of the address and no pointer goes on from it |
| `PageTable.UniquePath` | pset4/k-vmiter.cc:45-52 | no page-table page is shared: it is on the path of one root and of one prefix of addresses only |
| `PageTable.PathKeepsPresent` | pset4/k-vmiter.cc:3-11 | the permissions accumulated along a path always include PTE_P |
| `PageTable.PathFlags` | pset4/k-vmiter.cc:3-11 | the permissions accumulated along a path are the flags that all its pointers have |
| `PageTable.LargePage` | pset4/k-vmiter.hh:115-125 | masking bit 12 of a large page's address leaves its base when the reserved bits are zero |
| `PageTable.WalksAgree` | pset4/k-vmiter.hh:115-135 | the iterator's final entry gives the physical address and rights of the processor's walk, which faults exactly if that entry is absent or has a reserved bit set |
| `PageTable.GrowWalk` | pset4/k-vmiter.cc:45-52 | hanging an empty page into an absent entry keeps the forest and lengthens exactly the walks that ended there, by one level |
| `PageTable.GrowTranslatesSame` | pset4/k-vmiter.cc:45-52 | growing the tables changes the translation of no address in any address space |
| `PageTable.LeafTranslates` | pset4/k-vmiter.cc:55-57 | after a level-0 entry is written, its page translates exactly as the new entry says |
| `PageTable.LeafTranslatesOthersSame` | pset4/k-vmiter.cc:55-57 | writing one level-0 entry changes no other page of any address space |
| `Kalloc.ServeIsSafe` | pset4/kernel.cc:104-121 | one request: the page handed out was free and becomes owned, every allocatable page below the cursor stays owned, and `kalloc` of at most a page hands out the lowest free page and fails only when there is none |
| `Kalloc.NoPageTwice` | pset4/kernel.cc:102-158 | over any run of both allocation calls no page is handed out twice, each was allocatable and unowned before and is owned after, and the pages still free are exactly the others |
| `Kalloc.UsablePages` | pset4/k-hardware.cc:322-339 | before the first request the free pages are those that overlap neither the page at 0, nor 0xA0000 to 0x100000, nor the kernel and its stack, and lie below 0x200000 |
| `Kalloc.OnlyUsable` | pset4/kernel.cc:102-158 | in every run from the start only such pages are handed out, and when `kalloc` of at most a page fails all of them have been |
| `Kalloc.ScanStep` | pset4/kernel.cc:109-119 | one turn of the allocator's loop finds the page that the specification serves, or moves on past a page that is not free |
| `Kalloc.PhysicalMemory.Kalloc` | pset4/kernel.cc:104-121 | the loop over `next_alloc_pa` serves what the specification serves and clears exactly that page |
| `Kalloc.PhysicalMemory.KallocPhysicalPage` | pset4/kernel.cc:147-158 | as the specification: the named page if it is allocatable and free, cleared, and nothing otherwise |
| `VmIter.SpanShares` | pset4/k-vmiter.hh:112-114 | addresses with the same bits above the final level share the walk, the entry, and the distance to the physical address |
| `VmIter.NextSkipsAbsent` | pset4/k-vmiter.hh:32-34 | `next` never skips a present page: its target is a later page boundary, and on every page between the walk ends at an absent entry, so the processor faults |
| `VmIter.NextTargetIs` | pset4/k-vmiter.cc:26-32 | how far it goes: if the entry of the address is present, to the next page boundary; if it is absent, past all page boundaries whose walk ends at that same entry, to the first that ends elsewhere or to the end of the address space |
| `VmIter.SpanEnds` | pset4/k-vmiter.hh:107-114 | from an address up to the end of its span all walks end at the same entry, and at the end of the span, unless the address space ends there, at another |
| `VmIter.GrowStep` | pset4/k-vmiter.cc:44-53 | a page from `kalloc` hung into the absent entry: tables stay a forest apart from free memory, the walk goes one level further to an empty entry, no translation changes |
| `VmIter.GrowFails` | pset4/k-vmiter.cc:46-49 | when `kalloc` returns null there is no free page, and walks and translations are as before |
| `VmIter.SetLeafStep` | pset4/k-vmiter.cc:55-57 | writing the entry maps the current page to exactly `pa` with exactly the P, W and U bits given, and nothing else |
| `VmIter.VmIter.AgreesWithProcessor` | pset4/k-vmiter.hh:115-147 | `pa()`, `perm()` and `user()` of a valid iterator are what the processor computes for its address |
| `VmIter.VmIter.constructor` | pset4/k-vmiter.hh:102-105 | a new iterator agrees with a fresh walk to its address |
| `VmIter.VmIter.Down` | pset4/k-vmiter.cc:3-11 | ends where the walk from the cached stop ends, so at a fresh walk's end |
| `VmIter.VmIter.RealFind` | pset4/k-vmiter.cc:13-24 | from any cached stop, reused or restarted at the root, reaches the end of a fresh walk to the new address |
| `VmIter.VmIter.Find` | pset4/k-vmiter.hh:148-151 | the iterator at the new address agrees with a fresh walk |
| `VmIter.VmIter.Advance` | pset4/k-vmiter.hh:152-157 | the same after `+=` and `-=`, with addresses wrapping at 64 bits |
| `VmIter.VmIter.Next` | pset4/k-vmiter.cc:26-32 | moves exactly that far, skipping only absent pages, still agreeing with a fresh walk; at the end of the address space to 0 |
| `VmIter.VmIter.Step` | pset4/k-vmiter.hh:158-160 | moves to the end of the entry at which the walk ends, page boundary by page boundary, still agreeing with a fresh walk |
| `VmIter.VmIter.SharedUpToLastVa` | pset4/k-vmiter.hh:112-114 | every address from `va()` up to `last_va()` has the same entry, the same permissions and the same pa minus va |
| `VmIter.VmIter.AddTable` | pset4/k-vmiter.cc:44-53 | one turn of the loop in `map`: no translation changes; either one level down at an empty entry, or memory is exhausted |
| `VmIter.VmIter.Map` | pset4/k-vmiter.cc:34-59 | success maps this page to exactly `pa` with exactly the P, W and U bits of `perm` and changes no other page of any address space; failure changes no translation at all; tables only grow |
| `VmIter.ScanTurn` | pset4/k-memviewer.cc:96-100 | one turn of the scan keeps: ascending, no present page below the position missed, exactly the user pages marked |
| `VmIter.ScanFindsUserPages` | pset4/k-memviewer.cc:96-100 | below the position every page that the processor lets unprivileged code use is marked, with the address it translates to, and nothing else is, but for entries with a reserved bit set |
| `VmIter.MarkUserPages` | pset4/k-memviewer.cc:96-100 | the loop over the low half ends, and has come by `next` from one address to the following, to every present page, and marked exactly the user-accessible pages it came to |
| `PtIter.BelowDisjoint` | pset4/k-vmiter.hh:64-73 | the pages below different entries of one level are disjoint |
| `PtIter.PostOrderIsComplete` | pset4/k-vmiter.hh:64-73 | the order holds every page-table page below the root exactly once, children before parents, and not the root |
| `PtIter.FromZeroIsPostOrder` | pset4/k-vmiter.hh:77-79 | what an iterator started at address 0 has to visit is the whole order |
| `PtIter.FromIsTail` | pset4/k-vmiter.hh:77-79 | what an iterator started at any other address has to visit is a last part of that order |
| `PtIter.FromIsSpans` | pset4/k-vmiter.hh:77-79 | and it is exactly the pages whose span of addresses does not end before that address |
| `PtIter.DescendKeepsRest` | pset4/k-vmiter.cc:72-80 | going down into a page leaves the list of pages to come unchanged |
| `PtIter.NextRoute` | pset4/k-vmiter.cc:82-95 | the next span has the next index at its level and zeros below it, and leaves the page exactly after its last entry |
| `PtIter.ReadsUnvisited` | pset4/k-vmiter.cc:72-91 | every entry that `down` reads is in the root or in a page still to come |
| `PtIter.ForwardTurn` | pset4/k-vmiter.cc:81-97 | the branch that moves forward: to the next entry, or to the root to climb, or off the end when nothing is to come |
| `PtIter.PtIter.constructor` | pset4/k-vmiter.cc:62-67 | a new iterator stands at the first page of those to come from its address, and is not active if that is above VA_NONCANONMAX |
| `PtIter.PtIter.Forward` | pset4/k-vmiter.cc:81-97 | the same for the fields, with the measure that makes `down` end |
| `PtIter.PtIter.Down` | pset4/k-vmiter.cc:69-99 | ends at the first page of those to come, reading only pages not yet visited, restart at the root included |
| `PtIter.PtIter.Next` | pset4/k-vmiter.hh:184-186 | drops the first page of those to come, even if all visited pages have been overwritten |
| `PtIter.PtIter.Ptp` | pset4/k-vmiter.hh:187-192 | is the first page of those to come |
| `PtIter.FreeTables` | pset4/k-vmiter.hh:66-73 | the documented free loop frees exactly the pages of the tree as it was, once each, children first, whatever freed pages are overwritten with, then the root, and touches no other page |
| `PongGame.PlanIsProper` | pset6/pongboard.hh:88-137 | what a move does stays on the board and on the ball's checkerboard colour, and meets only balls of that colour |
| `PongGame.MoveKeepsInv` | pset6/pongboard.hh:88-137 | one move keeps the representation invariant, all balls, every ball's colour, and balls off obstacles |
| `PongGame.RunKeepsInv` | pset6/simpong61.cc:187-204 | so does every run under every schedule: cells and balls point at each other one to one, dx is 0 exactly when dy is, and a ball at rest is on a sticky cell |
| `PongGame.MoveOnly` | pset6/pongboard.hh:88-137 | to the balls of one colour a move is the same move or no move at all |
| `PongGame.ColoursDoNotInterfere` | pset6/pongboard.hh:88-137 | under any schedule the balls of one colour move, and succeed or fail, as in the run without the other colour's balls and moves |
| `PongGame.PlaceKeepsInv` | pset6/simpong61.cc:172-185 | a ball made in a free on-board cell with a diagonal direction keeps the invariant |
| `PongGame.RunSnoc` | pset6/simpong61.cc:196-199 | a run with one more move at the end is that move after the run |
| `PongGame.MoveOnBoard` | pset6/pongboard.hh:88-137 | a move on a board of any size, obstacles included: each component of the direction turns exactly if the cell beside the ball that way is blocked; a ball in the way gets the turned direction and gives its own, or the ball goes back if that one rested; a blocked way turns the ball back; otherwise it moves on, and rests exactly if the cell is sticky; nothing else changes |
| `PongGame.MoveOnPlainBoard` | pset6/pongboard.hh:99-135 | without obstacles, on sides of at least 2, a ball turns at the edges only, and its move succeeds exactly if it is moving and the next cell is free |
| `PongBoard.MoveByCases` | pset6/pongboard.hh:88-137 | a move is: nothing, an exchange of directions with the ball met, a turn back, or a step, each after the turns at edges and obstacles |
| `PongBoard.Board.constructor` | pset6/pongboard.hh:32-37 | a new board shows an empty game of its size |
| `PongBoard.PongBall.constructor` | pset6/pongboard.hh:69-72 | a new ball in a free cell is added to the game, and cells and balls agree |
| `PongBoard.PongBall.Bounce` | pset6/pongboard.hh:99-105 | turns the ball at edges and obstacles and changes nothing else |
| `PongBoard.PongBall.CollideWith` | pset6/pongboard.hh:109-119 | exchanges the components of direction in which the two balls differ and moves neither |
| `PongBoard.PongBall.StepTo` | pset6/pongboard.hh:125-135 | the ball leaves its cell for a free one, and cells and balls agree again |
| `PongBoard.PongBall.Move` | pset6/pongboard.hh:88-137 | on any board in order the method's new state and result are those of the move on the game that the board shows |
| `PongBoard.MoveBalls` | pset6/simpong61.cc:187-199 | moves of the balls in any order: board and results are those of the run under that schedule |
| `PongBoard.MoveAll` | pset6/simpong61.cc:196-199 | one pass of the single thread over all balls is the run under the schedule 0, 1, 2, ... |
| `PongSolo.SoloMove` | pset6/pong61.cc:366-392 | on a board of sides of at least 2 with sticky cells only, a single ball's move succeeds, turns at the edges only, and ends at rest exactly on a sticky cell |
| `PongSolo.WaveStep` | pset6/pongboard.hh:99-105 | one step of a coordinate moves its phase on the triangle wave by one |
| `PongSolo.SoloRun` | pset6/pong61.cc:390-392 | as long as it comes to no sticky cell, every move of the run succeeds, and the ball is where the steps bring it |
| `PongSolo.SoloSticks` | pset6/simpong61.cc:162-170 | from the first sticky cell that it comes to it rests there, and every further move fails |
| `PongSolo.SoloClosedForm` | pset6/pong61.cc:366-396 | after n moves x is the triangle wave of period 2(width-1) at its phase plus n, and y that of period 2(height-1) |
| `PongSolo.SoloPeriodic` | pset6/pong61.cc:366-396 | the ball's place repeats after 2(width-1)(height-1) moves, and so does its direction, at the start exactly if a move in that direction could have led there |
| `CxaGuard.StepKeepsInv` | pset4/k-hardware.cc:884-908 | every atomic access keeps: nobody inside before the winner, one owner while it initializes, afterwards at most one thread between its exchanges and exactly while the guard reads 1 |
| `CxaGuard.InitializedOnce` | pset4/k-hardware.cc:879-900 | in every run of any number of threads the first acquire to return returns 1, no other does, and none returns 0 before the release |
| `CxaGuard.GuardAfterRelease` | pset4/k-hardware.cc:884-908 | after the release the guard reads 1 exactly while one thread is between exchange(1) and exchange(2), and 2 exactly otherwise |
| `CxaGuard.SomeCallReturns` | pset4/k-hardware.cc:889-899 | in every reachable state, a schedule that lets all threads go after its first step makes some call return |
| `CxaGuard.WaiterCanReturn` | pset4/k-hardware.cc:889-899 | after the release a waiting thread can return 0 within three steps |
| `CxaGuard.StaysInCall` | pset4/k-hardware.cc:884-908 | a thread that has begun a call is in it until the call returns, and one that holds the guard holds it until its release, whatever the others do |
| `CxaGuard.FastOnceReleased` | pset4/k-hardware.cc:886-888 | once the guard reads 2 and no thread is in a call, every call takes one access, returns 0 and leaves the guard at 2 |
| `CxaGuard.WaiterLocksAgain` | pset4/k-hardware.cc:890-893 | a waiter that finds the release locks the guard once more: until its next step the guard reads 1 and no call returns |
| `PipeStream.WordRoundTrip` | pset3/pipeexchange61.cc:71-81 | a size_t copied into a buffer and out again is itself |
| `PipeStream.OneMessage` | pset3/pipeexchange61.cc:67-85 | a position of a byte stream lies in one message at one offset |
| `PipeStream.PushCarries` | pset3/slow-io61.cc:104-117 | a byte written at the end of a pipe extends the part of the stream, ids and the zeros behind them, that the pipe holds |
| `PipeStream.PopCarries` | pset3/slow-io61.cc:65-81 | a byte read from the front is the one its message has there |
| `PipeExchange.RequesterLoops` | pset3/pipeexchange61.cc:67-85 | the requester's loop heads keep the invariant: pipes hold what was written and not read, ids in place, counters in step |
| `PipeExchange.RequesterSends` | pset3/pipeexchange61.cc:71-75 | so does each byte of io61_write; the pipe's reader is never gone |
| `PipeExchange.RequesterReceives` | pset3/pipeexchange61.cc:79-80 | so does each byte of io61_read; no read is short |
| `PipeExchange.RequesterChecks` | pset3/pipeexchange61.cc:81-83 | at the end of a response its id is the expected one, so the assertion holds |
| `PipeExchange.ResponderTakes` | pset3/pipeexchange61.cc:103-104 | the responder's reads keep the invariant; no read is short |
| `PipeExchange.ResponderAnswers` | pset3/pipeexchange61.cc:105-106 | the responder's writes keep the invariant; the pipe's reader is never gone |
| `PipeExchange.StepKeepsInv` | pset3/pipeexchange61.cc:56-116 | every step of either process keeps the invariant |
| `PipeExchange.IdsMatch` | pset3/pipeexchange61.cc:78-84 | for every table with sizes of at least 8 and every interleaving no assertion fails, and response number k is id k followed by zeros |
| `PipeExchange.FinishedIsComplete` | pset3/pipeexchange61.cc:87-116 | when both processes have ended all bytes have been read, both pipes are empty and all requests have been answered |
| `PipeProgress.StepSpendsOne` | pset3/pipeexchange61.cc:56-116 | every step uses one of the steps left |
| `PipeProgress.RunsAreFinite` | pset3/pipeexchange61.cc:56-116 | no run is longer than the steps left at its start, and it has as many exactly if both processes have ended |
| `PipeProgress.OnlyBothWriting` | pset3/pipeexchange61.cc:67-110 | an unfinished state in which neither process can step has both writing into full pipes |
| `PipeProgress.SentAllFits` | pset3/pipeexchange61.cc:70-75 | a batch that has been sent completely before a response was read meets the condition |
| `PipeProgress.NeverPast` | pset3/pipeexchange61.cc:70-78 | in a phase that does not meet it no run gets past sending |
| `PipeProgress.DeadlockFreeIffFits` | pset3/pipeexchange61.cc:56-116 | every reachable unfinished state has a process that can step if and only if for every phase with batch k, sizes R and S, k*R <= requestRoom + (responseRoom/S + 1)*R |
| `PipeProgress.WholeBatchFits` | pset3/pipeexchange61.cc:56-116 | a pipe that holds a whole batch in its direction is enough |
| `PipeProgress.FullRunCompletes` | pset3/pipeexchange61.cc:56-116 | then every run that cannot go on has ended with everything answered, pipes empty, after the same number of steps |
| `PipeProgress.ProgramDeadlock` | pset3/pipeexchange61.cc:14-23 | the program's own table: free of deadlock exactly from 200000 bytes on by that condition, so not with two pipes of 65536 |
| `Scheduler.SpinFindsNext` | pset4/kernel.cc:344-351 | the loop's first find is the runnable process nearest after the current one |
| `Scheduler.SpinsForever` | pset4/kernel.cc:340-360 | the endless loop finds nothing, ever, exactly if no process is runnable |
| `Scheduler.SpinNumber` | pset4/kernel.cc:346-350 | a spin runs the process that the specification picks, or there was none so far; NPROC fruitless spins mean that there is none at all |
| `Scheduler.FaultedNeverRuns` | pset4/kernel.cc:250-281 | a broken process stays broken and is never current again |
| `Scheduler.FaultBreaks` | pset4/kernel.cc:265-280 | after its page fault a process is broken and is current in no later state |
| `Scheduler.BrokenIffFaulted` | pset4/kernel.cc:239-281 | in every state of every run the processes that have faulted are broken, and all others are in the state that they started in |
| `Scheduler.RunsNearest` | pset4/kernel.cc:239-281 | a system call that returns keeps the processor; any other event gives it to the nearest process, going round, that can then run |
| `Scheduler.EndsIffNoneLeft` | pset4/kernel.cc:275-280 | a run ends, because the scheduler spins forever, exactly at the fault of the only process that could run |
| `Scheduler.DistanceFalls` | pset4/kernel.cc:344-351 | each decision that does not pick a runnable process brings the current one strictly nearer to it |
| `Scheduler.RunsSoon` | pset4/kernel.cc:344-360 | a process that is runnable, and if it runs now is not the one that the first exception breaks, has run after at most as many decisions as it is places away, never more than NPROC, whatever else happens |
| `Scheduler.Kernel.DoSchedule` | pset4/kernel.cc:344-360 | after any number of spins the loop runs the process that the specification picks, or has found none; after NPROC the specification has none either |
| `Scheduler.Kernel.Exception` | pset4/kernel.cc:239-281 | yields, ticks, faults and direct system calls change the table and the current process as specified |
| `Stride.OrderIsPermutation` | pset3/stridecat61.cc:37-58 | column order holds every position below the size exactly once |
| `Stride.OrderIsByColumns` | pset3/stridecat61.cc:5-9 | and it goes by columns of blocks: of two positions the one in blocks further left comes first, then the one in a row above, then the one further left in its row |
| `Stride.ReadsInOrder` | pset3/stridecat61.cc:37-58 | for strides below the size the loop reads in column order to the end |
| `Stride.WritesInOrder` | pset3/ostridecat61.cc:34-55 | in a file with even rows the writing loop writes in column order |
| `Stride.WritesByColumns` | pset3/ostridecat61.cc:34-55 | in any file it writes in the column order of the file whose cut block is made whole, up to as many positions as the input has bytes |
| `Stride.WritesPastEnd` | pset3/ostridecat61.cc:34-55 | in any other file it writes at a position past the end |
| `StrideWide.ReadsSequential` | pset3/stridecat61.cc:37-58 | for strides of at least the size the loop reads straight through unless the position wraps |
| `StrideWide.ReadsGoBack` | pset3/stridecat61.cc:49-56 | if the position wraps, some byte is read again |
| `StrideWide.ReadsOnceIff` | pset3/stridecat61.cc:37-58 | with 1 <= block size <= stride every byte is read exactly once if and only if the position does not wrap |
| `StrideWide.LastNeverRead` | pset3/stridecat61.cc:49-56 | if the position wraps, the last byte of the file is never read |
| `StrideCopy.StrideCat` | pset3/stridecat61.cc:14-58 | the output is the input's bytes in the order of the reads, for every size given with `-s`, every block size and every stride; without them the size is the file's and blocks are of one byte |
| `StrideCopy.PartOfFile` | pset3/stridecat61.cc:22-24 | told to copy less than the whole file, stridecat61 copies the file cut to that size, if the position does not wrap and no block reaches past the cut |
| `StrideCopy.OStrideCat` | pset3/ostridecat61.cc:34-55 | the output file is the input's bytes at the positions of the writes |
| `StrideCopy.SameOrderInverts` | pset3/ostridecat61.cc:34-55 | bytes read in a permutation and written in the same one are the file again, in both orders |
| `StrideCopy.AlwaysInvertsIff` | pset3/ostridecat61.cc:34-55 | for all 1 <= block size <= stride, ostridecat61 undoes stridecat61 on every file of a size if and only if the position does not wrap and the last row is even |
| `StrideCopy.UnstridedInvertsIff` | pset3/ostridecat61.cc:34-55 | for each single file: if the position does not wrap it is restored if and only if its last row is even, then stridecat61 undoes ostridecat61 too; with an uneven last row the output is longer; if the position wraps the output does not depend on the last byte |
| `StrideCopy.EvenEnough` | pset3/ostridecat61.cc:34-55 | block size 1, or a stride that divides the size, is enough |
| `StrideCopy.Counterexamples` | pset3/stridecat61.cc:49-55 | a file and arguments for each half of the condition that fails |
| `ScatterGather.Amount` | pset3/scattergather61.cc:13-31 | a read is empty only at the end, has a newline only as its last byte in line mode, and stops only when full, at the end or after a newline |
| `ScatterGather.ReadLine` | pset3/scattergather61.cc:13-31 | both modes of `read_line` read that amount |
| `ScatterGather.BlocksMakeInput` | pset3/scattergather61.cc:53-66 | the blocks read from each input, in order, are that input |
| `ScatterGather.RotationIsFair` | pset3/scattergather61.cc:53-66 | between a read of an input and its next read every other open input is read exactly once, in order, across removals |
| `ScatterGather.TotalFalls` | pset3/scattergather61.cc:53-66 | every turn leaves less to read, or as much and fewer open inputs, so the copy ends |
| `ScatterGather.LoopTurn` | pset3/scattergather61.cc:55-65 | a turn of the loop on `infs` and `ini`, wraparound of `--ini` included, is a turn of a queue |
| `ScatterGather.Copy` | pset3/scattergather61.cc:53-66 | the loop reads the turns of the rotation, and output j is the concatenation of their blocks numbered j modulo the number of outputs |
| `ScatterGather.NumberedAt` | pset3/scattergather61.cc:63-64 | these are the blocks of number j, j + n, j + 2n and so on, in that order, and no others |
| `ScatterRoundTrip.GatherUndoesScatter` | pset3/scattergather61.cc:4-11 | a file scattered over any number of outputs, in blocks or in lines, is gathered from them again with the same block size |
| `HttpResponse.ConsumeAppend` | pset6/pong61.cc:406-440 | a stream may be divided anywhere, inside CR LF too: parsing what was left and what comes is one pass |
| `HttpResponse.HeadParses` | pset6/pong61.cc:420-430 | header lines are taken one by one and the body starts right after the empty line |
| `HttpResponse.ResponseParses` | pset6/pong61.cc:412-430 | a well-formed response (section 6 of RFC 1945) is parsed to its status, its headers and its body |
| `HttpResponse.NoLengthLine` | pset6/pong61.cc:424-430 | header lines without a content-length line leave status and length as they are |
| `HttpResponse.LastLengthLine` | pset6/pong61.cc:426-430 | otherwise the last content-length line gives the length, and the status is as it was |
| `HttpResponse.ContentLengthText` | pset6/pong61.cc:422-424 | a line gives the length exactly if its first 16 bytes are those of `Content-Length: `, letters in either case |
| `HttpResponse.ExchangedWithLength` | pset6/pong61.cc:169-230 | a well-formed response whose last such line gives a length leaves the connection idle if that much body comes before the connection ends, and broken if not, with its status and length |
| `HttpResponse.ExchangedWithoutLength` | pset6/pong61.cc:446-460 | without such a line the connection ends closed, with its status and no length |
| `HttpResponse.ExchangedCut` | pset6/pong61.cc:406-440 | a connection that ends within the head is broken, and has a status exactly if the status line came and was one |
| `HttpResponse.StreamAppend` | pset6/pong61.cc:182-193 | reads give their bytes one after the other, up to the first that reports the end |
| `HttpResponse.HttpConnection.ProcessResponseHeaders` | pset6/pong61.cc:406-440 | the scanning loop is one pass over the buffer, keeps the rest, and breaks at the end of the connection |
| `HttpResponse.HttpConnection.ReceiveResponseHeaders` | pset6/pong61.cc:173-203 | for every division into reads: state, status and length are those of one pass over the whole stream (broken if the head is incomplete), and the body starts at the same place |
| `HttpResponse.HttpConnection.CheckResponseBody` | pset6/pong61.cc:446-460 | the state after each look at the buffer, by length and end of connection |
| `HttpResponse.HttpConnection.ReceiveResponseBody` | pset6/pong61.cc:210-230 | ends idle if the whole length came, broken if not, closed at the end of the connection if there is no length (section 7.2.2 of RFC 1945), with all of the body that was read |
| `HttpResponse.HttpConnection.Exchange` | pset6/pong61.cc:258-267 | a whole exchange leaves what those statements say, however the stream was divided, and all of the body that was read; an idle connection can take another one |
| `ShellToken.Advances` | pset5/helpers.cc:24-97 | every token strictly advances the pointer; it leaves the text exactly after a final redirection to a descriptor, by one character; TOKEN_OTHER is never returned |
| `ShellToken.LeavesIff` | pset5/sh61.cc:100-102 | the loop over a line's tokens leaves the text if and only if it comes to a rest of the line that is a redirection to a descriptor at its end |
| `ShellToken.LeavesOnlyAfterDigit` | pset5/helpers.cc:47-53 | such a line ends in a digit |
| `ShellToken.NewlineIsRead` | pset5/sh61.cc:163-165 | every line with a newline at its end is read to its end |
| `ShellToken.LineNotRead` | pset5/helpers.cc:47-53 | `2>&1` without a newline is not |
| `ShellToken.EndsAt` | pset5/helpers.cc:27-35 | the end is reported exactly at the end of the line or a comment |
| `ShellToken.WordPieces` | pset5/helpers.cc:73-91 | a word of bare characters, characters behind backslashes, and single and double quotations, in any mixture, is read as their texts one after the other |
| `ShellToken.WordPrints` | pset5/helpers.cc:37-95 | such a word, up to where a space, an operator or the end of the line follows, is one token with that text, leading digits included |
| `ShellToken.PlainWord` | pset5/helpers.cc:37-95 | a word without spaces, special characters, quotation marks and backslashes is a token with that text |
| `ShellToken.SingleCutShort` | pset5/helpers.cc:73-91 | a single quotation that the line does not close is read to its end |
| `ShellToken.DoubleCutShort` | pset5/helpers.cc:73-91 | so is a double quotation |
| `ShellToken.DuplicatePrints` | pset5/helpers.cc:47-53 | `N>&M` is one token, and the pointer ends one character behind it |
| `ShellToken.ItemPrints` | pset5/helpers.cc:37-92 | each printed token followed by a space is read as that type and text |
| `ShellToken.RoundTrip` | pset5/helpers.cc:24-97 | a printed list of tokens of all kinds, a space after each, is read back as exactly that list |
| `ShellToken.ReadWord` | pset5/helpers.cc:73-91 | the word loop reads the word of the grammar and stops behind it |
| `ShellToken.ReadRedirection` | pset5/helpers.cc:41-53 | the redirection branch, with its extra step |
| `ShellToken.ParseShellToken` | pset5/helpers.cc:24-97 | the method returns the token of the grammar and the place behind it, and nothing with TOKEN_SEQUENCE at the end |
| `ShellToken.EvalLine` | pset5/sh61.cc:99-102 | on every line the token loop stays inside the text or reports that it leaves it, exactly as the grammar says; inside, it collects the texts of all tokens |
| `NumberText.WordFits` | pset4/lib.cc:261-262 | the digits of a word in base 10 or more and a terminator fit in the 24-byte buffer |
| `NumberText.FillNumbuf` | pset4/lib.cc:230-246 | fills the end of the buffer with exactly the digits and a terminator and touches nothing before them |
| `NumberText.DigitsRoundTrip` | pset4/lib.cc:230-246 | the digits of a number stand for the number |
| `NumberText.DigitsFromTable` | pset4/lib.cc:230-246 | they are characters of the table of the case asked for, below the base, and the first is not 0 unless the number is |
| `NumberText.OverflowTest` | pset4/lib.cc:138-142 | the division in the overflow test is exact |
| `NumberText.ReadDigits` | pset4/lib.cc:125-150 | the digit loop computes the mathematical value, capped at 2^64-1 by its sticky flag |
| `NumberText.Strtoul` | pset4/lib.cc:107-155 | spaces, sign, base mark and digits, in any base: the capped value, negated modulo 2^64, and where it stops |
| `NumberText.Strtol` | pset4/lib.cc:157-174 | the value clamped to a long with its sign, and where it stops, in any base |
| `NumberText.TextReads` | pset4/lib.cc:107-174 | for every text of spaces, a sign or none, a mark of base 16 where it is allowed, digits and something else: strtoul gives the digits' value capped at 2^64-1, negated modulo 2^64 behind a `-`, strtol the value clamped to a long, and both stop behind the digits |
| `NumberText.DigitsMean` | pset4/lib.cc:127-137 | decimal digits and small letters have their values in every base up to 36, and a capital letter has its value exactly if it is at least the base less 7 |
| `NumberText.CapitalsIff` | pset4/lib.cc:129-134 | capital letters have their values exactly in bases up to 17 |
| `NumberText.OnlyAlphanumericIff` | pset4/lib.cc:129-134 | only digits and letters are taken for digits exactly in bases up to 10 |
| `Printer.StringPrinter.Putc` | pset4/lib.cc:506-513 | the buffer holds the longest prefix of everything put that fits, and n counts everything |
| `Printer.ConversionData` | pset4/lib.cc:367-369 | the digits of the number, from a buffer that they fit in |
| `Printer.ConversionSizes` | pset4/lib.cc:386-404 | how much of the data is printed and how many zeros before it |
| `Printer.PutParts` | pset4/lib.cc:407-421 | blanks, sign or mark, zeros and data come out in that order, blanks on the side that the flags say |
| `Printer.PutDirective` | pset4/lib.cc:366-421 | one conversion puts exactly its text |
| `Printer.FillsFieldIff` | pset4/lib.cc:406-421 | the text of a conversion is as long as its width, or as its sign, zeros and data if these are longer, exactly if the int that counts the blanks does not wrap around to a positive number |
| `Format.FieldOverrun` | pset4/lib.cc:406-421 | a format and arguments with which it does: 2147483646 blanks come out with a conversion that has no width |
| `Format.ReadNumeral` | pset4/lib.cc:283-285 | the digit loop of a width or precision reads the digits at its place as their value |
| `Format.ReadWidth` | pset4/lib.cc:281-290 | the width of the grammar: digits, the next argument for `*`, or none |
| `Format.ReadPrecision` | pset4/lib.cc:292-307 | the precision of the grammar, 0 for a lone `.` or a negative argument |
| `Format.ReadRequest` | pset4/lib.cc:316-364 | the conversion that a character asks for and the arguments it leaves, an unknown character and the end of the format included |
| `Format.PrintDirective` | pset4/lib.cc:270-421 | one directive puts exactly its text, takes exactly its arguments, and ends at the place behind it |
| `Format.OutputStep` | pset4/lib.cc:264-268 | one turn of the loop puts the first part of what is left to print |
| `Format.PrinterVprintf` | pset4/lib.cc:260-423 | a whole format with its arguments puts exactly the text that its grammar gives |
| `Format.Vsnprintf` | pset4/lib.cc:515-528 | stores the longest prefix of that text that fits with its terminator, nothing beyond, and returns the full length |
| `FormatText.FlagsMean` | pset4/lib.cc:248-279 | of the characters `#`, `0`, `-`, blank and `+` in front of a width, in any order and number, each sets its own flag and no other |
| `FormatText.DirectiveReads` | pset4/lib.cc:270-421 | a format that goes on with `%`, any flags, width, precision, length modifiers and a conversion character prints what these fields ask for, and then what is behind them with the arguments left |
| `FormatText.SignedPrints` | pset4/lib.cc:322-329 | `%d` and `%i` with any fields: blanks up to the width on the side of the flag `-`, the sign of the flags `+` and blank, zeros of the flag `0` or the precision, and the decimal digits |
| `FormatText.UnsignedPrints` | pset4/lib.cc:330-334 | the same for `%u`, without a sign |
| `FormatText.HexPrints` | pset4/lib.cc:335-340 | the same for `%x` and `%X` in base 16, with 0x or 0X of the flag `#` before a number other than 0 |
| `FormatText.PointerPrints` | pset4/lib.cc:341-345 | the same for `%p`, with 0x before every number |
| `FormatText.StringPrints` | pset4/lib.cc:346-348 | `%s` prints its argument, cut to the precision, in its field |
| `FormatText.CharPrints` | pset4/lib.cc:352-356 | `%c` prints its character in its field, or nothing for a NUL |
| `FormatText.ColourPrints` | pset4/lib.cc:349-351 | `%C` takes an argument and prints nothing |
| `FormatText.OtherPrints` | pset4/lib.cc:357-364 | any other character prints itself, and the end of the format `%` |
| `FormatText.LiteralPrints` | pset4/lib.cc:264-268 | characters other than `%` print themselves |
| `FormatText.WidthFlags` | pset4/lib.cc:393-421 | `%w`, `%0w` and `%-w` fill with blanks before, zeros before, and blanks behind the digits |
| `FormatText.SignFlags` | pset4/lib.cc:371-379 | `%+` and `% ` put + or a blank before a number that is not negative |
| `FormatText.AltFlag` | pset4/lib.cc:380-384 | `%#` puts 0x or 0X before a number in base 16 other than 0 |
| `FormatText.StringFlags` | pset4/lib.cc:386-391 | `%s` prints its argument and `%.ks` its first k characters |
| `PrintRoundTrip.SignedRoundTrip` | pset4/lib.cc:323-329 | for every long and every combination of flags, width and precision, strtol in base 10 gives back what %ld printed, and stops behind its digits |
| `PrintRoundTrip.UnsignedRoundTrip` | pset4/lib.cc:330-346 | the same for strtoul with %lu in base 10 and with %lx, %lX and %p in base 16 |
| `PrintRoundTrip.LongRoundTrip` | pset4/lib.cc:270-329 | strtol in base 10 gives back every long that a format `%...ld` with any flags, width and precision prints |
| `PrintRoundTrip.UnsignedLongRoundTrip` | pset4/lib.cc:270-338 | strtoul gives back every unsigned long printed with `%...lu`, `%...lx` or `%...lX` |
| `PrintRoundTrip.DecimalDigitsValue` | pset4/lib.cc:125-154 | strtoul on decimal digits alone is their value capped at 2^64-1 |

## Left out

- Page-table entries are modelled as a frame number and twelve flags; PTE_XD and the other bits above the frame are not part of this model, and `map` is called with permissions below bit 12.
- VmIter.VmIter.Map: requires what the code asserts: an aligned address, a `pa` that is a frame's address if PTE_P is given and lacks that bit otherwise, no P, W or U bit that the path lacks, and for non-zero permissions no large page in the way.
- VmIter.VmIter.AgreesWithProcessor: the processor also faults on reserved bits that the iterator does not look at, and its rights are compared on the P, W and U bits.
- An iterator's agreement with the tables is kept under its own moves and its own `map`; other writers of the same tables are not modelled.
- Kalloc.NoPageTwice: excludes owners that are multiples of 256, which a byte stores as 0, and takes the linker's `kernel_end` as a parameter; `kfree` does nothing in the source.
- The cells of the pong board are a two-dimensional array instead of a vector in row-major order, and a board lists its balls, as `main` does in pset6/simpong61.cc.
- Data races of unsynchronised `move` calls and of `move_done` are not modelled; a move is one atomic step, as its comment intends.
- PongSolo.SoloClosedForm: boards with a side of 1, where the ball turns in place, are excluded.
- CxaGuard.InitializedOnce: the guard's atomics, the relaxed load included, are taken as sequentially consistent, and only a thread whose acquire returned 1 calls the release.
- PipeExchange.IdsMatch: the processes' printing, and the timeout and signals of their parent, are not modelled; a negative batch is a batch of 0; writes and reads do not fail except that the other end is gone.
- Scheduler.Kernel.DoSchedule: takes the number of spins to follow, as an endless loop has no last state; it is stated for every number.
- Kernel panics, check_keyboard, memshow and the registers of a process are not modelled.
- StrideCopy.AlwaysInvertsIff: block sizes above the stride are excluded here, as the block size of the code then falls below zero and wraps; `StrideCopy.StrideCat` and `StrideCopy.OStrideCat` follow that arithmetic, but the size of the program's buffer is not modelled.
- StrideCopy.PartOfFile: says nothing of a block that reaches past the cut, or of sizes above the file's; `StrideCopy.StrideCat` gives the reads for them.
- HttpResponse.HttpConnection.ProcessResponseHeaders: `sscanf` and `strtoul` of the C library are functions of the line that are not further described; the buffer is unbounded.
- HttpResponse.HttpConnection.ReceiveResponseHeaders: the connection is assumed to end some time, so that its loop of reads does; sockets and errors that exit are left out.
- ShellToken.EvalLine: stops where the pointer leaves the text, as the program's next call would read beyond the terminator; running the command is left out.
- Format.PrinterVprintf: formats that read an argument that is not there or is of another type, or whose width or precision leaves an int, are excluded (`Format.Suits`): the code's behaviour is then undefined.
- Printer.PutDirective: text arguments of 2^31 characters and more are excluded; `console_putc` and colours are left out.
- NumberText.TextReads: is for base 0 and the bases from 2 to 36; in a negative base nothing is a digit.
- FormatText.SignedPrints: this and the statements beside it are for fields that `FormatText.Fits` describes: the int that counts blanks does not wrap around to a positive number.
- NumberText.Strtoul: bases for which the code's int arithmetic on the base would overflow are excluded.
- The m61 allocator, buffered io61, `command::run`, `basealloc`, the other copy programs, port I/O, descriptors, keyboard, console drawing, boot code and check scripts are left out: stubs, hardware effects or easier than what is here.
