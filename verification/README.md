# Master of Files: a verified model

Master of Files runs queries over a distributed store. A **Master** schedules queries onto Workers, a
**Worker** executes a query's instructions over an internal memory of page frames, and **Storage** keeps
files, tags and blocks. They talk over sockets in length-prefixed packets. This project models the logic
of the three in Dafny and proves what it is meant to guarantee.

* **Worker memory** (`PageCache`, `Replacement`, `PageTurns`, `LruStack`, `FlatStore`, `WorkerMemory`,
  `WorkerProgram`). The internal memory is a write-back cache over Storage, with LRU or CLOCK-M
  replacement. It is modelled as the code has it: one RAM buffer, a frame table, a clock hand, updated in
  place by loops, over a Storage whose reads and writes may fail. It refines a flat byte store: a read
  returns the store's bytes, a write changes exactly the requested ones, and faults, evictions,
  write-backs, flushes and failures change nothing a reader can see, over whole queries and over a query
  stopped, flushed and taken up again on a fresh memory. Below that are the exact specification of CLOCK-M, the completeness
  of flushes, and the stack property of LRU, carried from the single access to the query: if nothing
  fails, the resident pages and the misses are functions of its text. Nothing fails but for want of a
  frame or at a request that Storage did not grant, which the model counts; and a page just used has U = 1, so that
  CLOCK-M gives it its second chance.
* **Master scheduler** (`ReadyQueue`, `Scheduler`, `SchedulerTokens`, `SchedulerPlacement`,
  `SchedulerOrder`, `SchedulerOvertaking`, `SchedulerRuns`, `SchedulerFunctions`, `MasterScheduler`). The scheduler is a state machine whose
  steps are the stretches between two points where another thread may run, so `list_add` and `sem_post`
  are separate steps and every interleaving is a run. Proved over all runs: the accounting of the two
  semaphores, conservation of queries, the order of the ready queue, exact preemption, and bounded
  overtaking under aging. `MasterScheduler` holds the functions as sequential code with ghost program counters, each proved
  to be a legal run of the machine that ends in a stated state.
* **Storage** (`BlockNames`, `Storage`, `StorageCounts`, `StorageBitmap`, `StorageCommit`, `StorageShape`,
  `StorageRuns`, `StorageListing`, `StorageLookups`, `StorageServer`). CREATE, TRUNCATE, TAG, COMMIT, DELETE and WRITE over
  files, tags, reference counts, bitmap and hash index, without contents. Reference counts are global sums
  that every request but DELETE keeps, and a run with DELETEs keeps exactly when they balance, from a fresh
  start never falling below the references while links succeed; no block is
  free while named, with the exact conditions for COMMIT and DELETE; TRUNCATE gives a tag its shape; and a
  committed tag keeps its size and its blocks until it is deleted. `StorageServer` holds the loops, each
  proved equal to its function.
* **Packets and names** (`Codec`, `Wire`, `FileTags`): round trips in both directions.

The source names its functions in Spanish; here they have English names and a comment with the original.

Where a property is false of the code in general, the model keeps the code and states exactly when it
holds:

* page numbers are cast to 32 bits (`FlatStore.FaithfulIffInRange`);
* a send that fails requeues a query that still belongs to a worker (`SchedulerPlacement.ConservationStep`),
  and a requeue may break the queue's order (`SchedulerOrder.CanonicalStep`); one run from the start does
  both (`SchedulerRuns.RefusedSendBreaksBoth`);
* COMMIT may redirect to a block that it has freed itself (`StorageCommit.CommitExact`). This takes a disk
  with logical blocks off block 0 (`StorageCommit.MarkedAtStartIsNotEnough`), which only an existing file
  system brings: from a fresh start it never happens (`StorageRuns.FreshStartSafe`);
* DELETE drops one reference for each entry of a list that names a block once, not for each logical block
  (`StorageCounts.CountsRightIffNothingLeaked`, `StorageRuns.DeleteLeaks`). From a fresh start that only leaves
  counts too large (`StorageListing.NeverUndercounted`), unless a link failed
  (`StorageListing.FailedLinkUndercounts`) or a size was negative with a BLOCK_SIZE of 1
  (`StorageListing.NegativeSizeUndercounts`); on a disk that no run from
  a fresh start reaches may free a named block (`StorageBitmap.DeleteExact`);
* a committed tag does not stay: DELETE removes it, or uncovers a hidden duplicate
  (`StorageLookups.CommittedKept`);
* TRUNCATE that runs out of space keeps the old size over more blocks (`StorageShape.TruncateShape`, and
  `StorageRuns.TruncateOverfills` from a fresh start);
* what Master and Worker tell each other about an eviction is sent as packets and read as bare ints, so the
  lengths in a packet are taken for its values: the Master reads an eviction report as naming query 20 at
  counter 4 (`Codec.EvictionReportMisread`), the Worker an eviction request as naming query 8
  (`Codec.EvictionRequestMisread`), and an order to resume as query 20 plus the length of the path, at
  counter 4 (`Codec.ResumeMisread`), which it then ignores unless it received that query's path itself
  (worker/src/worker.c:276-279). So an evicted query is in general not taken up again where it stopped.

Assumptions about the environment, all visible in the contracts: sizes and positions fit `size_t`; the
page size and the memory are below 2^31, the clock is below 2^63 and a sleep lasts at least as long as
asked; a worker reports on a query only after it was sent; and, for bounded overtaking alone, priorities
arrive non-negative, nothing fails or disconnects, and a worker evicts only the query a request names.

## Model

| member | source | states |
|---|---|---|
| `WorkerMemory.PageStore.ReadBlock` | MasterOfFiles.main/worker/src/memoria_Interna.c:125-173 | a page read answers with the whole stored page or fails, in which case up to a page of arbitrary bytes may already be in the frame and the count of requests not granted grows by one |
| `WorkerMemory.PageStore.WriteBlock` | MasterOfFiles.main/worker/src/memoria_Interna.c:174-207 | a page write that is acknowledged stored exactly that page; a failed one stored it or nothing, and is counted as not granted |
| `WorkerMemory.Memory.constructor` | MasterOfFiles.main/worker/src/memoria_Interna.c:34-79 | FRAMES = size / page size free frames over one buffer of zeros, frame i at i * PAGE_SIZE; readers see exactly Storage |
| `WorkerMemory.Memory.Now` | MasterOfFiles.main/worker/src/memoria_Interna.c:108-111 | the clock never goes back |
| `WorkerMemory.Memory.Wait` | MasterOfFiles.main/worker/src/memoria_Interna.c:113-116 | at least the configured delay passes, as the 32-bit product given to usleep stands for it, and nothing else changes |
| `WorkerMemory.Memory.FindFree` | MasterOfFiles.main/worker/src/memoria_Interna.c:211-216 | the first free frame, or -1 exactly when there is none |
| `WorkerMemory.Memory.FindResident` | MasterOfFiles.main/worker/src/memoria_Interna.c:218-238 | the frame whose file, tag and page number match, or -1 |
| `WorkerMemory.Memory.LruVictim` | MasterOfFiles.main/worker/src/memoria_Interna.c:426-438 | an occupied frame of least last use, the first of them; -1 exactly when no frame is occupied |
| `WorkerMemory.Memory.CleanPass` | MasterOfFiles.main/worker/src/memoria_Interna.c:442-449 | the first (U=0, M=0) occupied frame in circular order from the hand, or none exists |
| `WorkerMemory.Memory.ModifiedPass` | MasterOfFiles.main/worker/src/memoria_Interna.c:452-465 | the first frame that was (0,1) on entry, with U cleared on exactly the occupied frames passed before it, or none exists and U is cleared on all |
| `WorkerMemory.Memory.OccupiedPass` | MasterOfFiles.main/worker/src/memoria_Interna.c:467-475 | the first occupied frame from the hand, or none exists |
| `WorkerMemory.Memory.ClockVictim` | MasterOfFiles.main/worker/src/memoria_Interna.c:440-476 | the three passes meet the declarative CLOCK-M specification: victim, use bits cleared, and hand just past the victim |
| `Replacement.ClockDetermined` | MasterOfFiles.main/worker/src/memoria_Interna.c:440-476 | that specification leaves no freedom: victim, frame table and hand are functions of the state before |
| `Replacement.ClockSecondChance` | MasterOfFiles.main/worker/src/memoria_Interna.c:440-476 | -1 exactly when no frame is occupied; the hand stays below FRAMES; a frame with U=1 is taken only if every occupied frame had U=1, one with M=1 only if none was (0,0) |
| `WorkerMemory.Memory.ChooseVictim` | MasterOfFiles.main/worker/src/memoria_Interna.c:478-480 | LRU or CLOCK-M as configured |
| `Replacement.ChoosesOnlyUse` | MasterOfFiles.main/worker/src/memoria_Interna.c:426-476 | choosing a victim changes nothing in the frame table but use bits |
| `PageCache.WriteBack` | MasterOfFiles.main/worker/src/memoria_Interna.c:412-424 | writing a dirty frame back, acknowledged or not, keeps the cache invariant and what readers see of every page |
| `PageCache.Forget` | MasterOfFiles.main/worker/src/memoria_Interna.c:269-273 | taking the name off a clean frame changes no page's bytes |
| `PageCache.Scribble` | MasterOfFiles.main/worker/src/memoria_Interna.c:276-278 | bytes left by a failed read in a frame without a name are seen by no reader |
| `PageCache.Load` | MasterOfFiles.main/worker/src/memoria_Interna.c:276-289 | loading an absent page into a nameless frame keeps the invariant and changes no page's bytes |
| `PageCache.Store` | MasterOfFiles.main/worker/src/memoria_Interna.c:317-322 | a write into a resident frame changes exactly those bytes of exactly that page |
| `WorkerMemory.Memory.FlushFrame` | MasterOfFiles.main/worker/src/memoria_Interna.c:412-424 | readers see the same bytes; success leaves the frame clean and Storage equal to what readers see of its page; it fails only when Storage did not grant the one write it asked for, and then leaves it dirty and everything else as it was |
| `WorkerMemory.Memory.Release` | MasterOfFiles.main/worker/src/memoria_Interna.c:261-272 | a frame loses its name if and only if it is clean or its write was granted, and no page changes for readers |
| `WorkerMemory.Memory.Evict` | MasterOfFiles.main/worker/src/memoria_Interna.c:243-274 | victim selection, write-back and release together change no page's bytes, and say which frame was taken; they fail only if there is no frame or the write-back was not granted |
| `WorkerMemory.Memory.LoadFrame` | MasterOfFiles.main/worker/src/memoria_Interna.c:276-295 | a failed read leaves every page as readers saw it; a successful one names the frame; it fails only if the read was not granted |
| `WorkerMemory.Memory.Fault` | MasterOfFiles.main/worker/src/memoria_Interna.c:240-295 | a page fault changes no page's bytes, whether it succeeds or fails, and it fails only if there is no frame at all or one of its requests was not granted, exactly one |
| `WorkerMemory.Memory.ObtainFrame` | MasterOfFiles.main/worker/src/memoria_Interna.c:241-274 | a frame for a new page: the first free one, else the victim the policy determines, written back and without its name; -1 only if there is no frame or the write-back was not granted |
| `WorkerMemory.Memory.FetchPage` | MasterOfFiles.main/worker/src/memoria_Interna.c:229-296 | the page ends in the returned frame, chosen as the policy says; whatever happens readers see the same bytes of every page; it returns -1 exactly when there is no frame or one request was not granted, and then the frame table is as it was, or the policy's victim was chosen and kept or left clean and nameless |
| `PageTurns.NamelessStaysEvictable` | MasterOfFiles.main/worker/src/memoria_Interna.c:243-278 | the victim of a failed fault is again the next victim of LRU and has U=0 for CLOCK-M; if it lost its name it is clean and in CLOCK-M's first class |
| `PageTurns.TurnMarks` | MasterOfFiles.main/worker/src/memoria_Interna.c:311-333 | after a turn the page is resident with U=1 and the time of the turn, and with M=1 and dirty after a write |
| `PageTurns.SecondChance` | MasterOfFiles.main/worker/src/memoria_Interna.c:229-333 | under CLOCK-M a turn, or a fetch that failed, takes no page whose frame has U=1 from that frame while some frame is free or has U=0 |
| `WorkerMemory.Memory.StoreBytes` | MasterOfFiles.main/worker/src/memoria_Interna.c:317-322 | the in-place write refines a splice into one page of the flat store |
| `WorkerMemory.Memory.LoadBytes` | MasterOfFiles.main/worker/src/memoria_Interna.c:328-328 | the bytes copied out are those of the flat store |
| `WorkerMemory.Memory.UseFrame` | MasterOfFiles.main/worker/src/memoria_Interna.c:317-333 | the bytes are copied between buffer and frame, and of the whole frame table exactly the frame used changes: U=1, the time, and dirty and M=1 after a write |
| `WorkerMemory.Memory.AccessPage` | MasterOfFiles.main/worker/src/memoria_Interna.c:311-333 | one turn of the access loop reads or writes exactly one page's bytes, adds exactly that page to the history, and keeps the frame table in step with the recency stack. The whole frame table and the hand afterwards are those of the fetch with the frame used marked (U=1, time of use, and dirty and M=1 after a write); under CLOCK-M no page with U=1 was evicted while a frame was free or had U=0; it fails only if there is no frame or one request was not granted. Strictness is lost only by a failure or a wait that does not move the clock |
| `WorkerMemory.Memory.AccessChunk` | MasterOfFiles.main/worker/src/memoria_Interna.c:305-336 | a chunk extends the finished prefix of the request, and the history and the turns taken by its page, across the page boundary |
| `WorkerMemory.Memory.AccessMemory` | MasterOfFiles.main/worker/src/memoria_Interna.c:298-339 | a read returns exactly the flat store's bytes and changes nothing; a write changes exactly the requested bytes; a failure has done exactly a prefix; the history grows by the pages of the bytes done, in order, and a successful access keeps strictness while the waits move the clock; frame table and hand are those of the turns taken one after the other, and the result is -1 only if there is no frame or one request was not granted |
| `FlatStore.TurnsInRange` | MasterOfFiles.main/worker/src/memoria_Interna.c:303-336 | in range, a request touches the pages from that of its first byte to that of its last, each once and in order |
| `FlatStore.FaithfulIffInRange` | MasterOfFiles.main/worker/src/memoria_Interna.c:305-309 | positions map to distinct bytes of their own page if and only if the request ends at or below 2^32 * PAGE_SIZE, because page numbers are cast to uint32_t |
| `FlatStore.BeyondRange` | MasterOfFiles.main/worker/src/memoria_Interna.c:305-305 | past that limit every position lands on another page's byte |
| `FlatStore.PageNumberAliases` | MasterOfFiles.main/worker/src/memoria_Interna.c:305-305 | the concrete case: position 2^32 * PAGE_SIZE is served from page 0 |
| `FlatStore.WriteFlatExact` | MasterOfFiles.main/worker/src/memoria_Interna.c:305-322 | in range, a write of n bytes changes byte `pos` of the file:tag if and only if base <= pos < base + n, and nothing of any other |
| `FlatStore.ReadAfterWrite` | MasterOfFiles.main/worker/src/memoria_Interna.c:298-339 | a read after a write returns the bytes written |
| `WorkerMemory.Memory.FlushFileTag` | MasterOfFiles.main/worker/src/memoria_Interna.c:368-410 | success makes Storage equal to what readers see on every page of that file:tag; no other page of Storage changes; readers see the same bytes, also on failure; no other frame changes; it fails only when one write was not granted |
| `WorkerMemory.Memory.FlushAllModified` | MasterOfFiles.main/worker/src/memoria_Interna.c:341-365 | success leaves no dirty frame and Storage equal to the flat store everywhere, although the inner flush cleans later frames; it fails only when one write was not granted |
| `LruStack.AccessStep` | MasterOfFiles.main/worker/src/memoria_Interna.c:229-296 | one access under LRU keeps the frame table a mirror of the recency stack, on hits, free frames and evictions |
| `LruStack.ResidentIsTop` | MasterOfFiles.main/worker/src/memoria_Interna.c:229-296 | the resident pages are the n most recent distinct ones |
| `LruStack.Inclusion` | MasterOfFiles.main/worker/src/memoria_Interna.c:229-296 | pages resident with n frames are resident with more |
| `LruStack.MissesNeverRise` | MasterOfFiles.main/worker/src/memoria_Interna.c:229-296 | for every access history more frames never mean more misses |
| `WorkerMemory.ResidentAreMostRecent` | MasterOfFiles.main/worker/src/memoria_Interna.c:229-296 | the stack theorem on the memory itself: resident exactly when among the n most recently used distinct pages, and misses as many as the history alone gives |
| `WorkerMemory.MoreFramesNeverHurt` | MasterOfFiles.main/worker/src/memoria_Interna.c:229-296 | of two memories with the same history the larger holds all the smaller holds and has missed no more often |
| `WorkerProgram.Execute` | MasterOfFiles.main/worker/src/instrucciones.c:121-164 | an instruction has the flat store's effect, whatever is faulted, evicted or refused; it touches the pages of its request in order; a successful flush leaves Storage equal to the flat store, on that file:tag or everywhere; it fails only if there is no frame or one request was not granted; frame table and hand are those of its turns |
| `WorkerProgram.RunFrom` | MasterOfFiles.main/worker/src/instrucciones.c:233-241 | every outcome of a run of instructions, the memory after it, the pages it touched, and Storage after each of its flushes are those of the flat store |
| `WorkerProgram.ProcessQuery` | MasterOfFiles.main/worker/src/instrucciones.c:220-246 | a query resumed at any program counter, and cut off after any number of lines, executes exactly the lines between, as such a run, and counts them |
| `WorkerProgram.SucceedsIffGranted` | MasterOfFiles.main/worker/src/instrucciones.c:220-246 | on a memory with frames every instruction of a run returns 0 if and only if Storage granted every request the run made |
| `WorkerProgram.LastWriteWins` | MasterOfFiles.main/worker/src/memoria_Interna.c:298-339 | after any run of reads, writes and flushes every byte is the one last written there |
| `WorkerProgram.ReadsSeeLastWrite` | MasterOfFiles.main/worker/src/memoria_Interna.c:298-339 | over any run below page 2^32, every byte a read returns is the one last written at its position, else the initial one |
| `WorkerProgram.TouchesRequested` | MasterOfFiles.main/worker/src/memoria_Interna.c:298-339 | a run without failed accesses touches exactly the pages that its text asks for, in order |
| `WorkerProgram.RunFresh` | MasterOfFiles.main/worker/src/instrucciones.c:220-246 | on a fresh LRU memory, after a whole query whose accesses succeed and whose waits move the clock, the resident pages are the most recent distinct ones its text asks for, as many as there are frames, and the misses are those of that text; with a frame, every instruction returns 0 if and only if Storage granted every request |
| `WorkerProgram.RunOnBoth` | MasterOfFiles.main/worker/src/instrucciones.c:220-246 | of two such memories running the same query the larger one holds all the smaller one holds and has missed no more often |
| `WorkerProgram.RunsJoin` | MasterOfFiles.main/worker/src/instrucciones.c:220-246 | a run of instructions and a second from where the first ended are one run |
| `WorkerProgram.Evict` | MasterOfFiles.main/worker/src/instrucciones.c:188-218 | a query stopped after any line and flushed: if the flush succeeds Storage is the flat store of the lines executed; instructions and flush fail exactly as often as a request was not granted |
| `WorkerProgram.HandOver` | MasterOfFiles.main/worker/src/instrucciones.c:188-246 | procesar_query called again, on a fresh memory over the same Storage, with the counter reached: if the flush in between succeeds, the two runs are one uninterrupted run |
| `ReadyQueue.SortSorts` | MasterOfFiles.main/master/src/master_planificacion.c:32-38 | sorting with the comparison gives a sorted permutation |
| `ReadyQueue.SortedUnique` | MasterOfFiles.main/master/src/master_planificacion.c:32-38 | two sorted arrangements of the same queries are equal, because ties are broken by qid |
| `ReadyQueue.SortIsOnlyArrangement` | MasterOfFiles.main/master/src/master_planificacion.c:135-141 | a queue is what the sort returns if and only if it is a sorted permutation |
| `ReadyQueue.AgedAt` | MasterOfFiles.main/master/src/master_planificacion.c:276-285 | an aging pass takes one from every waiting priority above 0 and touches no other query |
| `ReadyQueue.AgingKeepsPrioritiesNondecreasing` | MasterOfFiles.main/master/src/master_planificacion.c:276-285 | before the re-sort the aged priorities are still nondecreasing along the queue |
| `ReadyQueue.ResortPermutesOnlyZeros` | MasterOfFiles.main/master/src/master_planificacion.c:276-293 | the re-sort after aging permutes queries only inside the priority-0 group |
| `Scheduler.FirstFree` | MasterOfFiles.main/master/src/master_planificacion.c:66-82 | the first connected and free worker of the list; none is found only if there is none |
| `Scheduler.WorstIsWorst` | MasterOfFiles.main/master/src/master_planificacion.c:302-320 | the worker returned runs a query of the largest priority number, the first such; none is returned only if none runs |
| `SchedulerTokens.QueryTokensStep` | MasterOfFiles.main/master/src/master_planificacion.c:135-258 | query semaphore + token held or owed by the dispatcher + posts owed by handlers = length of the ready queue, kept by every step of every thread |
| `SchedulerTokens.WorkerTokensStep` | MasterOfFiles.main/master/src/master_planificacion.c:152-258 | worker tokens, held and owed included, are never fewer than the free workers, also with failed sends and disconnections |
| `SchedulerTokens.OnePhaseStep` | MasterOfFiles.main/master/src/master_planificacion.c:152-258 | each connected worker is free, executing, reserved or being registered, exactly one of these, at every step |
| `SchedulerTokens.ExactTokensStep` | MasterOfFiles.main/master/src/master_planificacion.c:152-207 | without disconnections and refused sends the worker tokens equal the free workers |
| `SchedulerTokens.NoLostWakeups` | MasterOfFiles.main/master/src/master_planificacion.c:178-258 | in every run: the queue-empty branch is never taken, a blocked dispatcher with no post owed means no waiting query or no free worker, and a free worker executes nothing |
| `SchedulerTokens.AlwaysFindsWorker` | MasterOfFiles.main/master/src/master_planificacion.c:195-207 | in runs without disconnections and refused sends the no-free-worker branch is never taken |
| `SchedulerPlacement.ConservationStep` | MasterOfFiles.main/master/src/master_planificacion.c:192-258 | a step keeps every query in exactly one place if and only if it is not a send failing with the query still on the worker's record, or already taken off it |
| `SchedulerPlacement.FailedSendDuplicates` | MasterOfFiles.main/master/src/master_planificacion.c:242-253 | such a send puts the query in one place more |
| `SchedulerPlacement.QueriesConserved` | MasterOfFiles.main/master/src/master.c:191-206 | while sends succeed each created query is in exactly one place; none runs twice, waits while running, or runs on a free worker |
| `SchedulerPlacement.ReservedWorkerLost` | MasterOfFiles.main/master/src/master_planificacion.c:195-211 | a disconnection between reserving the worker and setting `ejecutando` leaves the query on a record nobody serves |
| `SchedulerOrder.CanonicalStep` | MasterOfFiles.main/master/src/master_planificacion.c:135-258 | a step keeps the queue sorted if and only if it does not put a popped query back before a more urgent one |
| `SchedulerOrder.NeverReturns` | MasterOfFiles.main/master/src/master_planificacion.c:185-258 | in orderly runs the dispatcher never takes a requeue branch |
| `SchedulerOrder.CanonicalQueue` | MasterOfFiles.main/master/src/master_planificacion.c:135-141 | after any orderly run the ready queue is the unique (priority, qid)-sorted arrangement of the waiting queries |
| `SchedulerOrder.FirstInFirstOut` | MasterOfFiles.main/master/src/master_planificacion.c:135-193 | under FIFO, in any orderly run, queries are dispatched in exactly the order in which they entered the ready queue |
| `SchedulerOrder.VerdictExact` | MasterOfFiles.main/master/src/master_planificacion.c:302-358 | an eviction is asked for if and only if some waiting query is strictly better than some running one, and then of a worst running query; otherwise every waiting priority is at least every running one |
| `SchedulerOrder.PreemptionExact` | MasterOfFiles.main/master/src/master_planificacion.c:323-358 | the three steps of verificar_desalojo taken together request exactly that and change nothing else |
| `SchedulerRuns.RefusedSendBreaksBoth` | MasterOfFiles.main/master/src/master_planificacion.c:242-258 | a legal run of fourteen steps from the initial state, ending in a refused send and its requeue, after which a query is both queued and on a worker's record and the queue is out of order |
| `SchedulerOvertaking.RequestsStep` | MasterOfFiles.main/master/src/master_planificacion.c:338-338 | an eviction request that can still be answered always names a running query of priority above 0 |
| `SchedulerOvertaking.AgedWhileWaiting` | MasterOfFiles.main/master/src/master_planificacion.c:264-299 | a query of priority p >= 0 that waits has priority max(0, p - k) after k ticks, whatever else happens |
| `SchedulerOvertaking.TakesBounded` | MasterOfFiles.main/master/src/master_planificacion.c:178-258 | while a priority-0 query waits, each dispatch uses up one older unfinished query for good |
| `SchedulerOvertaking.BoundedOvertaking` | MasterOfFiles.main/master/src/master_planificacion.c:264-358 | after as many ticks as its priority, at most as many dispatches precede a waiting query as there are unfinished queries with a smaller qid, preemption included |
| `SchedulerOrder.AskedAsks` | MasterOfFiles.main/master/src/master_planificacion.c:323-358 | on a sorted queue the messages after the comparisons are those before and, if and only if some waiting query is strictly better than some running one, one to the first worker that runs a query of worst priority |
| `SchedulerFunctions.IterationEnds` | MasterOfFiles.main/master/src/master_planificacion.c:180-260 | an uninterrupted iteration: the head of the queue goes to the first free worker, two tokens are used and the worker's old requests are forgotten; nothing changes if no query waits or no worker is free; a packet that cannot be built only clears the record, a refused one only sets it |
| `MasterScheduler.Master.constructor` | MasterOfFiles.main/master/src/master_planificacion.c:96-133 | the machine's initial state |
| `MasterScheduler.Master.FindWorstRunning` | MasterOfFiles.main/master/src/master_planificacion.c:302-320 | the loop returns the specified worst running query |
| `MasterScheduler.Master.CheckPreemption` | MasterOfFiles.main/master/src/master_planificacion.c:323-358 | the function is a legal run of the machine by its own thread; on a sorted queue, if the message can be sent, the first worker running a query of worst priority is asked to give it up if and only if some waiting query is strictly better than some running one, and otherwise no message is added |
| `MasterScheduler.Master.AgingTick` | MasterOfFiles.main/master/src/master_planificacion.c:272-297 | the aging loop and re-sort are one tick of the machine followed by the preemption check, which asks for an eviction exactly as CheckPreemption does |
| `MasterScheduler.Master.AddReady` | MasterOfFiles.main/master/src/master_planificacion.c:135-149 | adding, sorting, posting and checking are a legal run; the queue is the old one and the query, sorted under PRIORIDADES, and an eviction is asked for exactly as CheckPreemption does |
| `MasterScheduler.Master.RegisterFree` | MasterOfFiles.main/master/src/master_planificacion.c:152-173 | setting `libre` and posting are a legal run; the worker ends free with no query |
| `MasterScheduler.Master.WorkerEvicted` | MasterOfFiles.main/master/src/master.c:275-301 | an eviction report that names the query on the record is a legal run after which the worker is free, the query is in the ready queue, both semaphores have grown by one, the handler listens again, and an eviction is asked for exactly as CheckPreemption does; one that names another query changes nothing |
| `MasterScheduler.Master.WorkerFinished` | MasterOfFiles.main/master/src/master.c:383-439 | a finish report that names the query on the record is a legal run after which that query is finished, the worker is free with no query, its semaphore has grown by one, and the handler listens again; one that names another query changes nothing |
| `MasterScheduler.Master.EndQuery` | MasterOfFiles.main/master/src/master_query.c:136-189 | the query is finished by the last step of the run |
| `MasterScheduler.Master.WorkerLost` | MasterOfFiles.main/master/src/master_planificacion.c:373-412 | a disconnection ends the worker's query and removes the worker, in one step |
| `MasterScheduler.Master.QueryArrives` | MasterOfFiles.main/master/src/master_query.c:11-41 | a new query takes the next qid and is in the ready queue, at its place under PRIORIDADES; the semaphore has grown by one and an eviction is asked for exactly as CheckPreemption does |
| `MasterScheduler.Master.WorkerArrives` | MasterOfFiles.main/master/src/master.c:224-240 | a new worker is listed last and free, then its token is posted, and its handler listens |
| `MasterScheduler.Master.ObtainFreeWorker` | MasterOfFiles.main/master/src/master_planificacion.c:66-82 | the first free worker is reserved, no other changes |
| `MasterScheduler.Master.DispatchOne` | MasterOfFiles.main/master/src/master_planificacion.c:180-260 | an iteration of the dispatcher is a legal run of exactly the steps of its branch, its send ending as given, and leaves the whole state that IterationEnds describes |
| `Storage.FindPhysical` | MasterOfFiles.main/storage/src/operaciones_storage.c:601-612 | the first block with that path; none is found only if none has it |
| `Storage.LeastFree` | MasterOfFiles.main/storage/src/storage_archivos.c:14-37 | the least free bit; none is found only if every bit is set |
| `Storage.FindFile` | MasterOfFiles.main/storage/src/operaciones_storage.c:49-62 | the first file of that name; none is found only if none has it |
| `Storage.FindTag` | MasterOfFiles.main/storage/src/operaciones_storage.c:64-82 | the first tag of that name; none is found only if none has it |
| `BlockNames.LogicalNamesDiffer` | MasterOfFiles.main/storage/src/operaciones_storage.c:1181-1197 | different block numbers get different zero-padded names |
| `BlockNames.LogicalWidth` | MasterOfFiles.main/storage/src/operaciones_storage.c:1181-1197 | a logical name is the number, with six digits below a million and with all its own from there, and .dat |
| `BlockNames.PhysicalWidth` | MasterOfFiles.main/storage/src/f_fresh_stat.c:316-340 | a physical name is block and the number, with four digits below ten thousand |
| `BlockNames.PhysicalNamesDiffer` | MasterOfFiles.main/storage/src/f_fresh_stat.c:316-340 | different physical blocks get different names |
| `StorageCounts.CreateConserves` | MasterOfFiles.main/storage/src/operaciones_storage.c:27-46 | CREATE moves no count away from its references, for every physical block, whatever the counts were |
| `StorageCounts.TruncateConserves` | MasterOfFiles.main/storage/src/operaciones_storage.c:103-267 | nor does TRUNCATE, growing or shrinking, with failed links and when space runs out |
| `StorageCounts.TagFileConserves` | MasterOfFiles.main/storage/src/operaciones_storage.c:299-380 | nor does TAG, with failed links |
| `StorageCounts.CommitConserves` | MasterOfFiles.main/storage/src/operaciones_storage.c:473-576 | nor does COMMIT, redirections included |
| `StorageCounts.DeleteSurplus` | MasterOfFiles.main/storage/src/operaciones_storage.c:1107-1177 | DELETE moves each count away from its references by exactly the deleted tag's references less the entries of its metadata's list |
| `StorageCounts.CountsRightIffNothingLeaked` | MasterOfFiles.main/storage/src/operaciones_storage.c:27-1177 | over any sequence of CREATE, TRUNCATE, TAG, COMMIT, DELETE and WRITE, counts that were right are right again if and only if, for each block, these differences add up to 0 over the DELETEs |
| `StorageCounts.CountsConserved` | MasterOfFiles.main/storage/src/operaciones_storage.c:27-576 | over any sequence of CREATE, TRUNCATE, TAG, COMMIT and WRITE each block's count is the number of logical blocks, over all files and tags, that name it |
| `StorageBitmap.CoversIffNamedIsMarked` | MasterOfFiles.main/storage/src/operaciones_storage.c:525-541 | with right counts, no block is free while named if and only if every counted block is marked |
| `StorageBitmap.ReferenceCovers` | MasterOfFiles.main/storage/src/operaciones_storage.c:536-541 | a further reference keeps this if and only if the block is marked |
| `StorageBitmap.CommitBlockCovers` | MasterOfFiles.main/storage/src/operaciones_storage.c:548-576 | a block of a COMMIT keeps it if and only if it is not redirected to a block that is free at that moment |
| `StorageBitmap.NoBlockFreeWhileNamed` | MasterOfFiles.main/storage/src/operaciones_storage.c:103-1177 | over any sequence of CREATE, TRUNCATE, TAG, WRITE, COMMITs redirecting to marked blocks, and DELETEs of tags whose metadata lists no block more often than they name it, no block is free while a logical block names it |
| `StorageBitmap.DeleteExact` | MasterOfFiles.main/storage/src/operaciones_storage.c:1107-1177 | a DELETE leaves no block free while named if and only if the deleted tag's metadata does not reach the count of a block that is also named outside the tag |
| `StorageBitmap.DeleteFreesNamed` | MasterOfFiles.main/storage/src/operaciones_storage.c:1107-1177 | the case where it does: a list naming a block the tag does not use frees the block under its one other reference |
| `StorageCommit.CommitClosed` | MasterOfFiles.main/storage/src/operaciones_storage.c:473-576 | COMMIT in closed form: each block ends where the index, or else the first block of the tag with its content, has that content; the others and the index are accordingly |
| `StorageCommit.MarkedAfter` | MasterOfFiles.main/storage/src/operaciones_storage.c:513-576 | a physical block is marked after n blocks of a COMMIT if and only if it was at the start and none of them took its last reference |
| `StorageCommit.CommitExact` | MasterOfFiles.main/storage/src/operaciones_storage.c:473-576 | on the disk it starts on: a COMMIT leaves no block free while named if and only if every block that moves goes to one that is marked and that no earlier block of the tag has freed |
| `StorageCommit.MarkedAtStartIsNotEnough` | MasterOfFiles.main/storage/src/operaciones_storage.c:513-576 | that the index targets are marked when the COMMIT starts does not suffice: on a disk with blocks 1 and 2 crossed its first block frees the second's target |
| `StorageCommit.CommitOnDisk` | MasterOfFiles.main/storage/src/operaciones_storage.c:444-471 | the same of the disk: after COMMIT each block of the tag is at its goal and the index is the old one and the first block of each content it lacked; otherwise nothing changed |
| `StorageRuns.FreshStartSafe` | MasterOfFiles.main/storage/src/storage.c:101-178 | from a fresh start, over every sequence of CREATE, TRUNCATE, TAG, COMMIT, DELETE and WRITE: no block is free while named, every logical block stays on block 0, no COMMIT redirects to a free block, and counts are right if and only if the DELETEs balance |
| `StorageRuns.DeleteLeaks` | MasterOfFiles.main/storage/src/operaciones_storage.c:1107-1177 | from a fresh start: create a tag, grow it to two blocks, delete it, and block 0 is counted once more than it is named |
| `StorageListing.TruncateLists` | MasterOfFiles.main/storage/src/operaciones_storage.c:103-267 | TRUNCATE and the metadata's list of used blocks: emptied by a truncation to 0 bytes; block 0 listed once after a growth that added a block; a freed block no longer listed; every other listing kept; freed are exactly the blocks, other than block 0, whose count came down to nothing |
| `StorageListing.NeverUndercounted` | MasterOfFiles.main/storage/src/operaciones_storage.c:27-1177 | from a fresh start, as long as no link fails (and with a BLOCK_SIZE of 1 no size is negative), no sequence of CREATE, TRUNCATE, TAG, COMMIT, DELETE and WRITE ever makes a count smaller than the number of logical blocks that name the block |
| `StorageListing.FailedLinkUndercounts` | MasterOfFiles.main/storage/src/operaciones_storage.c:103-267 | a failed link does: create a tag, grow it by two blocks of which one cannot be linked, shrink it by one, delete it, and block 0 is counted once less than it is named |
| `StorageListing.NegativeSizeUndercounts` | MasterOfFiles.main/storage/src/operaciones_storage.c:103-267 | so does a negative size with a BLOCK_SIZE of 1: create a tag, grow it to one block, truncate it to -1 bytes, delete it |
| `StorageRuns.TruncateOverfills` | MasterOfFiles.main/storage/src/operaciones_storage.c:103-190 | from a fresh start: create a tag, grow it past the free bits, and TRUNCATE returns -1 and keeps size 0 over a tag that has taken every free block |
| `StorageShape.GrowExact` | MasterOfFiles.main/storage/src/operaciones_storage.c:134-190 | growing adds a block for each link that succeeds, numbered on past the failed ones, keeps the blocks there were, and stops full exactly when the free bits run out, having added as many |
| `StorageShape.ShrinkExact` | MasterOfFiles.main/storage/src/operaciones_storage.c:193-251 | shrinking by n removes exactly the last n blocks |
| `StorageShape.TruncateShape` | MasterOfFiles.main/storage/src/operaciones_storage.c:103-267 | on a well-shaped tag, for any accepted size, links succeeding, TRUNCATE succeeds if and only if the free bits cover the growth, and then has the blocks the size stands for, well named, of which the first min(old, n) are unchanged; otherwise it is left with blocks its size does not count |
| `StorageShape.ShapedNamesDiffer` | MasterOfFiles.main/storage/src/operaciones_storage.c:1181-1197 | the blocks of a well-shaped tag have pairwise different names |
| `StorageLookups.CreateVisible` | MasterOfFiles.main/storage/src/operaciones_storage.c:27-46 | CREATE succeeds if and only if the file:tag did not exist; it then names an empty open tag, and no other lookup changes |
| `StorageLookups.TagFileVisible` | MasterOfFiles.main/storage/src/operaciones_storage.c:299-380 | TAG succeeds if and only if the origin exists; a new file:tag names an open tag of its size with exactly those of its blocks whose link succeeded, in order, and every file:tag that existed, the destination included, keeps its meaning |
| `StorageLookups.TruncateVisible` | MasterOfFiles.main/storage/src/operaciones_storage.c:103-267 | TRUNCATE changes no other lookup, never the name or status, the size only when it returns 0, and nothing at all on a committed tag |
| `StorageLookups.CommitVisible` | MasterOfFiles.main/storage/src/operaciones_storage.c:473-499 | COMMIT closes an open tag, keeping its size and its blocks' names, changes no other lookup, and does nothing on a closed one |
| `StorageLookups.DeleteVisible` | MasterOfFiles.main/storage/src/operaciones_storage.c:1107-1177 | DELETE, whatever the status, leaves the file:tag naming the next tag of that name in that file, which TAG onto an existing destination had hidden, or none; no other lookup changes |
| `StorageLookups.WriteVisible` | MasterOfFiles.main/storage/src/operaciones_storage.c:747-917 | WRITE changes no lookup, count or bit |
| `StorageLookups.WriteExact` | MasterOfFiles.main/storage/src/operaciones_storage.c:747-917 | WRITE returns 0 if and only if the block exists, the data fits, its physical block is known and the file system takes it; then exactly the old content's hash leaves the index, otherwise nothing changes |
| `StorageLookups.LeftAlone` | MasterOfFiles.main/storage/src/operaciones_storage.c:27-1177 | only COMMIT and WRITE touch the index; CREATE and WRITE touch no count and no bit, TAG no bit |
| `StorageLookups.CommittedKept` | MasterOfFiles.main/storage/src/operaciones_storage.c:27-1177 | a committed file:tag keeps its meaning through a request if and only if the request is not a DELETE of it, or the DELETE uncovers an equal tag |
| `StorageLookups.CommittedUntilDeleted` | MasterOfFiles.main/storage/src/operaciones_storage.c:27-1177 | after any requests none of which is a DELETE of it a committed file:tag names the same tag, with the same blocks on the same physical blocks |
| `StorageLookups.CommittedThenDeleted` | MasterOfFiles.main/storage/src/operaciones_storage.c:473-1177 | the concrete case: a file:tag created, committed and deleted names nothing |
| `StorageServer.Store.constructor` | MasterOfFiles.main/storage/src/storage.c:101-178 | the fresh file system |
| `StorageServer.Store.FindBlock` | MasterOfFiles.main/storage/src/operaciones_storage.c:601-612 | the index of the block with that path, or -1 |
| `StorageServer.Store.FindFreeBit` | MasterOfFiles.main/storage/src/storage_archivos.c:14-37 | the least free bit, or -1 |
| `StorageServer.Store.SetBit` | MasterOfFiles.main/storage/src/storage_archivos.c:66-98 | that bit and no other |
| `StorageServer.Store.FindFileIndex` | MasterOfFiles.main/storage/src/operaciones_storage.c:49-62 | the first file of that name, or -1 |
| `StorageServer.Store.FindTagIndex` | MasterOfFiles.main/storage/src/operaciones_storage.c:64-82 | the first tag of that name, or -1 |
| `StorageServer.Store.LookUp` | MasterOfFiles.main/storage/src/operaciones_storage.c:93-101 | the tag of a file:tag, if both exist |
| `StorageServer.Store.Release` | MasterOfFiles.main/storage/src/operaciones_storage.c:228-233 | one reference less, and the block freed when it was the last, unless it is block 0 |
| `StorageServer.Store.Retain` | MasterOfFiles.main/storage/src/operaciones_storage.c:537-541 | one reference more |
| `StorageServer.Store.CreateFile` | MasterOfFiles.main/storage/src/operaciones_storage.c:27-46 | return code and whole new state as specified |
| `StorageServer.Store.GrowOnce` | MasterOfFiles.main/storage/src/operaciones_storage.c:134-190 | one iteration of the growing loop as specified: no free bit, a failed link that gives the bit back, or one block more |
| `StorageServer.Store.GrowTag` | MasterOfFiles.main/storage/src/operaciones_storage.c:134-190 | the growing loop, with its early exit, is the specified growth |
| `StorageServer.Store.ShrinkTag` | MasterOfFiles.main/storage/src/operaciones_storage.c:193-251 | the shrinking loop is the specified shrink |
| `StorageServer.Store.TruncateFile` | MasterOfFiles.main/storage/src/operaciones_storage.c:103-267 | return code and whole new state as specified, every exit included |
| `StorageServer.Store.CopyBlocks` | MasterOfFiles.main/storage/src/operaciones_storage.c:333-367 | the copying loop is the specified copy |
| `StorageServer.Store.TagFile` | MasterOfFiles.main/storage/src/operaciones_storage.c:299-380 | return code and whole new state as specified |
| `StorageServer.Store.CommitBlock` | MasterOfFiles.main/storage/src/operaciones_storage.c:513-576 | hash lookup, redirection and index update as specified |
| `StorageServer.Store.CommitTag` | MasterOfFiles.main/storage/src/operaciones_storage.c:473-499 | return code and whole new state as specified |
| `StorageServer.Store.DiscardAll` | MasterOfFiles.main/storage/src/operaciones_storage.c:1127-1161 | the loop over the metadata's list is the specified discard |
| `StorageServer.Store.DeleteTag` | MasterOfFiles.main/storage/src/operaciones_storage.c:1107-1177 | whole new state as specified |
| `StorageServer.Store.WritePage` | MasterOfFiles.main/storage/src/operaciones_storage.c:747-917 | return code and whole new state as specified, without contents |
| `StorageServer.Store.HandleAll` | MasterOfFiles.main/storage/src/operaciones_storage.c:27-1177 | a run of requests leaves the disk the specification describes, so the run theorems hold of it |
| `Codec.IntRoundTrip` | MasterOfFiles.main/utils/src/utils/hello.c:95-95 | an int written byte by byte is read back |
| `Codec.FieldsDecode` | MasterOfFiles.main/utils/src/utils/hello.c:93-101 | the decoding loop returns exactly the encoded fields, from any offset where an encoding starts |
| `Codec.DecodedWasEncoded` | MasterOfFiles.main/utils/src/utils/hello.c:93-101 | it stays inside the buffer only on encodings |
| `Codec.PacketDecodes` | MasterOfFiles.main/utils/src/utils/hello.c:51-104 | a packet small enough for its total to fit the sender's int is received as itself and consumed exactly |
| `Codec.StreamRoundTrip` | MasterOfFiles.main/utils/src/utils/hello.c:51-124 | any sequence of such packets, serialized one after the other, is received as exactly these packets |
| `Codec.OnlySerializedStreams` | MasterOfFiles.main/utils/src/utils/hello.c:51-124 | a stream received as packets is the serialization of these packets |
| `Codec.BareIntsAreLengths` | MasterOfFiles.main/utils/src/utils/hello.c:111-124 | two bare ints read where a packet was sent are the lengths of its buffer and first field |
| `Codec.EvictionReportMisread` | MasterOfFiles.main/master/src/master.c:275-286 | the id the Master reads from an eviction report is that of the evicted query if and only if it is 20, and the counter it records is always 4 |
| `Codec.EvictionRequestMisread` | MasterOfFiles.main/master/src/master_planificacion.c:345-352 | the id a worker reads from an eviction request is that of the query to evict if and only if it is 8 |
| `Codec.ResumeMisread` | MasterOfFiles.main/master/src/master_planificacion.c:232-242 | the id and the program counter a worker reads from an order to resume are those sent if and only if the id is 20 plus the length of the path with its NUL, and the counter is 4 |
| `Wire.Outgoing.constructor` | MasterOfFiles.main/utils/src/utils/hello.c:175-188 | a new packet has no field |
| `Wire.Outgoing.Add` | MasterOfFiles.main/utils/src/utils/hello.c:190-198 | a field appends its length and bytes to the buffer, which stays the encoding of the fields so far |
| `Wire.Outgoing.Serialize` | MasterOfFiles.main/utils/src/utils/hello.c:111-124 | the bytes sent are the serialization of opcode and fields, and their number fits the int the sender computes |
| `Wire.Socket.ReceiveOperation` | MasterOfFiles.main/utils/src/utils/hello.c:51-61 | four bytes are consumed and decoded; -1 when the peer has closed; an int cut short by a closing peer is returned with its missing bytes arbitrary |
| `Wire.Socket.ReceiveBuffer` | MasterOfFiles.main/utils/src/utils/hello.c:63-72 | a length and that many bytes are consumed |
| `Wire.DecodeBuffer` | MasterOfFiles.main/utils/src/utils/hello.c:93-101 | the loop computes the specified decoding |
| `Wire.Socket.ReceivePacket` | MasterOfFiles.main/utils/src/utils/hello.c:84-104 | exactly one packet's bytes are consumed and decoded |
| `Wire.Socket.ReceiveAllPackets` | MasterOfFiles.main/utils/src/utils/hello.c:51-104 | reading until the peer closes gives the packets that were serialized |
| `FileTags.SplitParts` | MasterOfFiles.main/worker/src/instrucciones.c:95-119 | splitting fails exactly when there is no ':'; otherwise the parts join back and the file has no ':' |
| `FileTags.JoinedSplitsBack` | MasterOfFiles.main/utils/src/utils/hello.c:236-259 | a joined name splits into the same parts if and only if the file has no ':' |
| `FileTags.IdentitySurvives` | MasterOfFiles.main/worker/src/memoria_Interna.c:127-129 | what the Worker splits, joins and sends is what Storage splits again, even if the tag contains ':' |
| `FileTags.SplitName` | MasterOfFiles.main/utils/src/utils/hello.c:236-259 | the scan splits at the first ':' or returns -1 |

## Left out

- Sockets, logs, configuration, signals, allocation failures and process start-up: sends, receives
  and hard links are steps that succeed or fail. A packet that cannot be allocated is modelled where the
  dispatcher handles it.
- The library's lists, `list_sort`, bit arrays and MD5: taken by their contracts. Sorting is written out once, and
  `ReadyQueue.SortIsOnlyArrangement` shows that nothing depends on how.
- More than one Worker over the same pages, and Storage changing pages under a Worker, as TRUNCATE, TAG
  and COMMIT on Storage do: the cache is proved for a Storage that only this Worker writes.
- This repository's own Storage does not keep the contract of `PageStore`: a grown tag records and later writes
  block0000 while TRUNCATE linked another block (storage/src/operaciones_storage.c:154, 172, 831-860), so its pages share one
  block. The memory's theorems are relative to a Storage that returns the pages written to it.
- The Worker's dropping of frames on TRUNCATE and DELETE: its loops range over FRAME_COUNT, which is 0 and never assigned.
- Who sets the flags `query_cancelada` and `desalojado`, and when: the thread that runs a query is the one that
  would read the message setting them. `ProcessQuery` may be cut off after any line, as the first flag asks;
  `Evict` stops where the second asks for a flush, although procesar_query's loop does not stop there but
  goes on, flushing and reporting after every further line. `HandOver` passes on the counter itself.
- AccessMemory: says nothing of recency after a failed access. It leaves a nameless frame behind, and the
  stack property is promised for runs whose accesses succeed.
- ProcessQuery: does not model the text of an instruction line, its parsing or its replies, nor a query
  file that cannot be opened; an instruction is what it asks of the memory.
- What a worker does on receiving an eviction request: a report is a step of the environment, taken as the
  handlers mean the messages (see `Codec.EvictionReportMisread` and its neighbours for what they read). The worker does not compare the id
  in the request with the query it runs, which is why bounded overtaking assumes it.
- BoundedOvertaking: does not cover runs with failed sends, disconnections or negative arriving priorities, in
  which its conclusion is not promised.
- QueryArrives: does not model the qid counter wrapping after 2^32 queries; the machine stops accepting queries there.
- Use of memory after it was freed, when a worker disconnects while the dispatcher holds it or a query ends
  while a handler holds it: the record stays readable and marked as gone.
- Query Control disconnections: they search state lists that nothing fills.
- A handler thread starts no second message before it has finished one, and each critical section is one step.
- Block contents in Storage, so READ, the bytes behind a hash and deduplicated contents: hashes are whatever
  the file system answers. WRITE does not look at a tag's status, so that contents of a committed tag may
  change is not part of `StorageLookups.CommittedUntilDeleted`. Growing links one physical block but records
  block 0.
- A start from an existing file system.
- Metadata files and directories: DELETE removes the directory of a file:tag also when a hidden duplicate
  shares it.
- DeleteTag: reads the entries of the deleted tag's list as they were recorded. TAG copies pointers to the
  entries, so a DELETE of one tag frees strings that the other's list still holds.
- Storage's mutexes: requests are served one at a time. Shrinking takes the bitmap's mutex twice, and would
  not get past that point.
- TruncateFile: does not model signed overflow in the difference of two block counts, which needs a
  BLOCK_SIZE of 1 and a negative size.
- Files and tags are values inside the store's list, as are workers inside the Master's: nothing in the
  modelled operations shares them, and aliasing is not captured.
- ReceiveOperation: an opcode of -1 is indistinguishable from a closed socket.
- Text encodings: names are sequences of characters without a terminating NUL.
