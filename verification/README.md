# Verified models of XIOSim's stateful core structures

XIOSim is a cycle-level simulator of x86 processors. Its timing rests on structures that several functions
update in place and whose common invariants the code relies on without checking them as a whole: rings that
index into each other, pipes that must keep program order across recoveries, linked lists, lazily cleared tables,
and two small concurrent protocols. The modules here model these structures in Dafny and prove what the simulator
relies on. `dafny verify dfyconfig.toml` checks the whole project.

Where the C++ code changes an object, the model is a class with the same fields and loops, proved against functions
and predicates on sequences; properties of whole runs are lemmas about these, or invariants (`Valid`) that every
method keeps, with ghost fields for what has happened so far. Environment decisions (DRAM latencies, a free bus,
which uops complete and when, free entries, caches that accept a store, the contents of the instruction queue) are
arbitrary parameters.

**Out-of-order back end**

- `LoadStoreOrder.dfy`, `ExecSTM.dfy`, `LsqDiscipline.dfy`: load and store queues. `store_color` always separates a
  load's older stores from its younger ones, so that the backward search ends at the youngest live older store known to
  write the load's address, also in a full ring; a completed store lets exactly the loads that wait for it issue again.
  In-order allocation, in-order commit and youngest-first squash always meet what the queue operations require, and none of them
  makes a load unsafe that was safe when it issued.
- `ReadyQueue.dfy`, `AluHeap.dfy`: the queue of ready uops per port, and the heap of operations in a unit. The removal
  from the heap descends into the later child; `AluHeap.SinkExactly` says exactly when order survives that.
- `Dependences.dfy`, `CommitRecovery.dfy`: the dataflow graph and the reorder buffer, from allocation through commit and
  recovery. A recovery squashes exactly the younger entries, and the links of the others stay mutual inverses.
- `AtomicCommit.dfy`: the commit loop. In every run of insertions, completions, cycles and recoveries, no uop commits
  before all uops of its macro-op have completed.

**Memory controller**

- `MemoryController.dfy`, `MemoryAccounts.dfy`: the schedule as a function on the log of requests: conservation, a bound
  on starvation and on the time until a request has left, the latency that every request takes, and the books.
- `SimpleMC.dfy`: the ring of requests, which refines it.

**Front end**

- `StagedPipe.dfy`: rows of slots that move on together, shared by decode and allocation.
- `DecodeOrder.dfy`, `DecodeDPM.dfy`: from the instruction queue to the uop queue in fetch order, with resteers in the
  middle of a move.
- `AllocDPM.dfy`: every uop is dispatched exactly once, also in a fused group that stalls half-way, and takes exactly its
  own entries.

**Concurrency, as state machines over atomic steps**

- `TicketLock.dfy`: the 16-bit ticket lock. It is safe for up to 65536 threads, and for no more; then nobody starves.
- `CoreBarrier.dfy`: the barrier at the shared part of the machine, whose master can change. It is safe in every run in
  which no waiting core is deactivated (`CoreBarrier.LeavesTooEarly` says what happens otherwise). Core 0
  matters for progress only: while it is the master by default and not active, nobody steps the shared part
  (`CoreBarrier.NobodyStepsBefore`). The barrier is not always live: a master can be stranded. This needs the activation
  of a core with a smaller number while the master waits (`CoreBarrier.ConsiderateIsLive`), and every such activation
  can do it (`CoreBarrier.InconsiderateStrands`).

**Fast forms of simple specifications**

- `TageHistory.dfy`: the folded history hash, and the history under nested mispredictions. `PageTables.dfy`: page
  tables and frames. `Btac.dfy`, `StreamPrefetch.dfy`: doubly and singly linked recency lists. `VoltageAverage.dfy`: the
  average supply voltage. `LoadWaitTable.dfy`: a table that is cleared lazily.

`Rings.dfy`, `Ticks.dfy`, `Sequences.dfy` and `RecencyLists.dfy` hold what several modules share.

Where code and comments disagree, the model follows the code:

- `check_load_issue_conditions` passes at once when older stores fill the whole STQ, without having looked at one
  (exec-STM.cpp:563-565); the LDST_exec search does not have this problem.
- `RS_schedule` skips a port whose oldest uop is not ready, although a younger one may be (exec-STM.cpp:487-488).
- The allocation pipe holds up the later uops of a fused group for a full ROB, although they share an entry: it tests
  `fusion_head`, which bodies have as well, and not `is_fusion_head` (alloc-DPM.cpp:174). It also holds them up for full
  reservation stations, of which they occupy none, and so are the uops of a trap (alloc-DPM.cpp:200-207);
  `AllocDPM.HeldUpWithoutNeed` says exactly when a uop is held up although all it would take is free.
- A full flush can leave a store behind: if its address half has committed and its data half has been refused,
  `STQ_squash_std` does not release the entry, and the assertion of exec-STM.cpp:1284 fails
  (`LsqDiscipline.HalfCommittedStays`).
- The reorder buffer does not survive such a flush either. The rest of the macro-op is lost (`AtomicCommit.FlushIsAtomic`).
  If the halves are fused, an assertion of `get_fusion_tail` fails (zesto-structs.h:254), or, in builds without
  assertions, the committed uops are subtracted from ROB_eff_num once more; if they are not fused, ROB_eff_num ends at 0
  (`AtomicCommit.HalfCommittedFlushed`, `CommitRecovery.CommitDPM.RecoverAll`).
- `notify_write` maps two pages, or none in the last page of the address space, where memory.h:37-39 promises one.
- A mapping covers one page more than its length needs, and so does its removal; mmap followed by munmap restores a
  table only under the condition of `PageTables.Memory.MmapThenMunmap`.

## Model

| member | source | states |
|---|---|---|
| LoadStoreOrder.InsertLoad | xiosim/ZPIPE-exec/exec-STM.cpp:1138-1149 | a load inserted at the LDQ tail, with the store colour the code gives it, keeps the order invariant: every colour separates the older stores of its load from the younger ones, every next_load the older loads of its store |
| LoadStoreOrder.InsertStore | xiosim/ZPIPE-exec/exec-STM.cpp:1182-1193 | the same for a store address inserted at the STQ tail, also across wrap-around and into the last free slot |
| LoadStoreOrder.RemoveFirstLoad | xiosim/ZPIPE-exec/exec-STM.cpp:1152-1158 | the order invariant survives deallocation at the LDQ head |
| LoadStoreOrder.RemoveFirstStore | xiosim/ZPIPE-exec/exec-STM.cpp:1205-1249 | the order invariant survives deallocation at the STQ head |
| LoadStoreOrder.RemoveLastLoad | xiosim/ZPIPE-exec/exec-STM.cpp:1160-1170 | the order invariant survives a squash at the LDQ tail |
| LoadStoreOrder.RemoveLastStore | xiosim/ZPIPE-exec/exec-STM.cpp:1256-1267 | the order invariant survives a squash at the STQ tail |
| LoadStoreOrder.WalkVisitsOlder | xiosim/ZPIPE-exec/exec-STM.cpp:732-823 | walking down the ring from a load's colour visits the slots of exactly its older stores, youngest first, and the loop conditions end it right behind the oldest one |
| LoadStoreOrder.WalkStops | xiosim/ZPIPE-exec/exec-STM.cpp:747-823 | the conditions sta != NULL, older, and num_stores < STQ_num together fail exactly behind the last older store, even if the ring is full |
| LoadStoreOrder.IssueCheckExact | xiosim/ZPIPE-exec/exec-STM.cpp:563-565 | over all valid queues of k older stores the issue check meets its comment (every older store has a known address, and the youngest to the load's address its data) iff these do not fill the STQ: when they do, the head test ends the walk at once |
| LoadStoreOrder.SafeForward | xiosim/ZPIPE-exec/exec-STM.cpp:755-801 | with all older addresses known and the matching data there, the store at which the search stops is the last older writer of the load's address, and has its value |
| LoadStoreOrder.YoungerLoads | xiosim/ZPIPE-exec/exec-STM.cpp:984-986 | the loads younger than a store are the LDQ slots from its next_load on, and their colours do not go back |
| LoadStoreOrder.WakesWhoWaits | xiosim/ZPIPE-exec/exec-STM.cpp:984-1022 | the loads that the walk from next_load with its scan for overwriting stores meets the wake-up conditions of are those that wait for the store |
| ExecSTM.ExecSTM.LDQInsert | xiosim/ZPIPE-exec/exec-STM.cpp:1138-1149 | the queue gets the new load behind all others; order, links and indices stay valid |
| ExecSTM.ExecSTM.LDQDeallocate | xiosim/ZPIPE-exec/exec-STM.cpp:1152-1158 | the oldest load leaves and loses its index, nothing else changes |
| ExecSTM.ExecSTM.LDQSquash | xiosim/ZPIPE-exec/exec-STM.cpp:1160-1170 | the youngest load leaves and its slot is cleared |
| ExecSTM.ExecSTM.STQInsertSta | xiosim/ZPIPE-exec/exec-STM.cpp:1182-1193 | the queue gets the new store behind all others |
| ExecSTM.ExecSTM.STQInsertStd | xiosim/ZPIPE-exec/exec-STM.cpp:1195-1203 | the store data joins the youngest store, whose address part is there |
| ExecSTM.ExecSTM.STQDeallocateSta | xiosim/ZPIPE-exec/exec-STM.cpp:1205-1208 | the address part of the oldest store is released, which takes it out of the search of younger loads |
| ExecSTM.ExecSTM.STQDeallocateStd | xiosim/ZPIPE-exec/exec-STM.cpp:1211-1249 | the oldest store leaves iff both caches can take its request; otherwise nothing changes |
| ExecSTM.ExecSTM.STQSquashStd | xiosim/ZPIPE-exec/exec-STM.cpp:1269-1275 | the data part of the youngest store is taken back |
| ExecSTM.ExecSTM.STQSquashSta | xiosim/ZPIPE-exec/exec-STM.cpp:1256-1267 | the youngest store leaves and its slot is cleared |
| ExecSTM.ExecSTM.SearchStores | xiosim/ZPIPE-exec/exec-STM.cpp:732-823 | the backward search ends at the youngest live older store with a known equal address, or has visited every live older store |
| ExecSTM.ExecSTM.LoadExec | xiosim/ZPIPE-exec/exec-STM.cpp:729-824 | a load takes its value from that store if the store has its data, goes back to wait if it has not, and leaves the queues alone if there is no such store |
| ExecSTM.ExecSTM.CheckLoadIssueConditions | xiosim/ZPIPE-exec/exec-STM.cpp:550-601 | for every queue state the check passes iff the older stores fill the whole STQ, or every one of them has a known address and the youngest that writes the load's address has its data |
| ExecSTM.FullQueuePasses | xiosim/ZPIPE-exec/exec-STM.cpp:563-565 | a state that the code reaches: stores of unknown address fill an STQ of any size, a load follows, and its check passes |
| ExecSTM.IssueCheckIsExact | xiosim/ZPIPE-exec/exec-STM.cpp:563-600 | so for all k and STQ sizes the check is right for every valid queue of k older stores iff k is less than the size |
| ExecSTM.ExecSTM.ScanOverwrites | xiosim/ZPIPE-exec/exec-STM.cpp:988-1007 | the incremental scan finds whether a store between the given one and the load's colour writes the same address, and never meets the tail |
| ExecSTM.ExecSTM.WakeLoads | xiosim/ZPIPE-exec/exec-STM.cpp:976-1036 | exactly the loads that wait for the store (they have issued and not completed, and of their older stores known to write their address it is the youngest) may issue again: no issue time, no hit_in_STQ, a new action id, and uop, address and colour as before; no other load or action id changes |
| ExecSTM.ExecSTM.StoreExec | xiosim/ZPIPE-exec/exec-STM.cpp:940-1036 | a completing store half records its part; once both parts are there, exactly the loads that wait for the store may issue again, and before that no load changes |
| LsqDiscipline.Dispatch | xiosim/ZPIPE-alloc/alloc-STM.cpp:171-177 | insertion in program order meets what the queue operations require, puts the uop at the end of its queue with nothing known of it, and keeps the queues equal to the memory uops in flight |
| LsqDiscipline.Commit | xiosim/ZPIPE-commit/commit-STM.cpp:216-224 | so does release of the oldest uop: every older store has left before a load, and the address half before the data half |
| LsqDiscipline.Squash | xiosim/ZPIPE-commit/commit-STM.cpp:324-342 | so does squashing the youngest uop, unless it is a data half alone in flight |
| LsqDiscipline.CompleteStore | xiosim/ZPIPE-exec/exec-STM.cpp:955-975 | the completion of either half of a store leaves every load safe to issue that was; once both halves are there, exactly the loads that wait for the store meet what issuing requires |
| LoadStoreOrder.SafeStays | xiosim/ZPIPE-exec/exec-STM.cpp:550-601 | what makes a load safe to issue lasts while older stores leave, younger ones come and go, and more becomes known of them; dispatch, commit and recovery only do that |
| LsqDiscipline.IssueLoad | xiosim/ZPIPE-exec/exec-STM.cpp:846-880 | a load issues iff its check passes and it is accepted, and is safe then unless older stores fill the STQ |
| LsqDiscipline.ExecuteLoad | xiosim/ZPIPE-exec/exec-STM.cpp:755-806 | a load that was safe when it issued never finds a matching store without data: it takes the value of the last older store to its address, or there is none in the queue |
| LsqDiscipline.ComputeAddress | xiosim/ZPIPE-exec/exec-STM.cpp:931-937 | the computed address of a load is recorded, and nothing else changes |
| LsqDiscipline.WakeAndIssue | xiosim/ZPIPE-exec/exec-STM.cpp:846-872 | a load that waits for the data of a store issues again once the data is there iff the addresses of its older stores are known (or these fill the STQ); exactly if they are known it is safe then |
| LsqDiscipline.WaitsAndReissues | xiosim/ZPIPE-exec/exec-STM.cpp:1024-1031 | that happens: a load behind a full STQ issues, is abandoned, waits, issues again when the data completes, and completes with the value |
| LsqDiscipline.Recover | xiosim/ZPIPE-exec/exec-STM.cpp:1256-1286 | after a full flush both queues are empty, as recover_check_assertions demands, iff the oldest uop in flight was not a data half; otherwise one store stays behind with nobody to release it |
| LsqDiscipline.HalfCommittedStays | xiosim/ZPIPE-commit/commit-STM.cpp:216-224 | that happens: a store whose address half commits and whose data half is refused, and then a full flush |
| ReadyQueue.Port.InsertReadyUop | xiosim/ZPIPE-exec/exec-STM.cpp:429-468 | a uop is queued once, right behind the older ones; the list stays linked and in program order |
| ReadyQueue.Port.Schedule | xiosim/ZPIPE-exec/exec-STM.cpp:475-547 | if the head is ready, the oldest uop that has not been squashed, is ready and finds a unit issues, and the squashed ones leave, in one pass; no other uop is touched; if the head is not ready, nothing happens |
| ReadyQueue.FirstIsOldest | xiosim/ZPIPE-exec/exec-STM.cpp:507-511 | no eligible uop is older than the one that issues |
| ReadyQueue.HeadHoldsUp | xiosim/ZPIPE-exec/exec-STM.cpp:487-488 | while some uop could issue, the port issues nothing iff its head, which is older, is not ready (the comment in the source says that nothing is ready) |
| ReadyQueue.HeldUp | xiosim/ZPIPE-exec/exec-STM.cpp:487-488 | that happens, with the operations of the queue |
| AluHeap.Balance | xiosim/ZPIPE-exec/exec-STM.cpp:1317-1331 | a new operation rises so that the heap is in order; the operations are permuted |
| AluHeap.Remove | xiosim/ZPIPE-exec/exec-STM.cpp:1335-1383 | the root leaves and no other operation is lost; the heap is in order afterwards iff the sinking operation never leaves an earlier child aside |
| AluHeap.SinkExactly | xiosim/ZPIPE-exec/exec-STM.cpp:1350-1386 | order after the sinking iff SinksRight, for every heap |
| AluHeap.RightChildOvertakes | xiosim/ZPIPE-exec/exec-STM.cpp:1373-1382 | a family of heaps whose order is lost: the removal descends into the later child |
| AluHeap.OrderCanBeLost | xiosim/ZPIPE-exec/exec-STM.cpp:1373-1382 | a heap of that family |
| AluHeap.RootIsEarliest | xiosim/ZPIPE-exec/exec-STM.cpp:1317-1331 | in an ordered heap nothing leaves before the root |
| Dependences.FindLink | xiosim/ZPIPE-commit/commit-DPM.cpp:613-628 | the walk finds the link for this input, or shows that there is none |
| Dependences.UndoOne | xiosim/ZPIPE-commit/commit-DPM.cpp:608-631 | undoing one input removes exactly its link from its producer's list and keeps the graph's links mutual inverses |
| Dependences.UndoDependences | xiosim/ZPIPE-commit/commit-DPM.cpp:607-633 | when the youngest uop is squashed its own list is empty (the assertion at line 632 cannot fail) and all others keep exactly the links that do not belong to it, in order |
| Dependences.CommitLinks | xiosim/ZPIPE-commit/commit-DPM.cpp:479-481 | when the oldest uop commits, exactly its consumers lose exactly these inputs, and the graph stays consistent |
| Dependences.NoLinksLeft | xiosim/ZPIPE-commit/commit-STM.cpp:344-381 | as consumers are younger, the youngest uop has no consumers left |
| Dependences.LinkInput | xiosim/ZPIPE-alloc/alloc-DPM.cpp:273-281 | linking an input puts one link at the front of the producer's list and keeps the graph |
| Dependences.LinkDependences | xiosim/ZPIPE-alloc/alloc-DPM.cpp:258-282 | an allocated uop points to all its producers and every producer back to it; other links are unchanged |
| Dependences.LinkThenUndo | xiosim/ZPIPE-alloc/alloc-DPM.cpp:258-282 | allocation followed by a squash restores every list |
| CommitRecovery.FusionTail | xiosim/ZPIPE-commit/commit-DPM.cpp:681-683 | get_fusion_tail (zesto-structs.h): the walk ends at the last uop of a fused group; one of its assertions fails iff the uop is the last one of its group itself |
| CommitRecovery.FusionPrev | xiosim/ZPIPE-commit/commit-DPM.cpp:685-690 | get_fusion_prev (zesto-structs.h): the predecessor in a fused group, or null for its head and for uops that are not fused |
| CommitRecovery.KeepIsPrecise | xiosim/ZPIPE-commit/commit-DPM.cpp:680-694 | with macro-ops in program order, what a recovery keeps is exactly the entries not younger than the macro-op |
| CommitRecovery.KeepIsLongest | xiosim/ZPIPE-commit/commit-DPM.cpp:680-694 | the kept part ends at the last entry of the macro-op, and is empty iff there is none |
| CommitRecovery.CommitDPM.RobInsert | xiosim/ZPIPE-commit/commit-DPM.cpp:732-739 | an entry joins behind all others; its uops join the dependence graph, and the effective count grows by its head |
| CommitRecovery.CommitDPM.RobFuseInsert | xiosim/ZPIPE-commit/commit-DPM.cpp:741-744 | a later uop of a fused group is counted as allocated, without an entry of its own |
| CommitRecovery.CommitDPM.Link | xiosim/ZPIPE-alloc/alloc-DPM.cpp:258-282 | linking a uop of the ROB to its producers keeps the ROB and the graph valid |
| CommitRecovery.CommitDPM.CommitHead | xiosim/ZPIPE-commit/commit-DPM.cpp:435-481 | the head uop leaves the graph, its entry passes to the next uop of its group and leaves with the last one, also around the end of the ring; no consumer points at it any more |
| CommitRecovery.HalfCommittedFlushed | xiosim/ZPIPE-commit/commit-DPM.cpp:697-721 | a full flush that meets a fused pair of which the first uop has committed fails its assertion, or ends with ROB_eff_num == -1 |
| CommitRecovery.ThirdWraps | xiosim/ZPIPE-commit/commit-DPM.cpp:435-481 | a ROB of two entries that three uops go through: the ring wraps with links in it |
| CommitRecovery.CommitDPM.RobPopBack | xiosim/ZPIPE-commit/commit-DPM.cpp:746-753 | exactly the youngest entry leaves the ring |
| CommitRecovery.CommitDPM.SquashEntry | xiosim/ZPIPE-commit/commit-DPM.cpp:681-690 | all uops of an entry are squashed, youngest first, and taken out of graph and count |
| CommitRecovery.CommitDPM.Recover | xiosim/ZPIPE-commit/commit-DPM.cpp:668-695 | exactly the entries younger than the macro-op are squashed, youngest uop first, also if the oldest group has committed in part; the survivors' links stay mutual inverses, every squashed uop is unlinked, and the drain starts iff asked for and something was squashed; where assertions are compiled in, one stops the recovery iff the oldest entry has to go and stands at the last uop of a group of more than one; otherwise the ROB stays valid iff an entry is left or no group had committed in part |
| CommitRecovery.CommitDPM.RecoverAll | xiosim/ZPIPE-commit/commit-DPM.cpp:697-721 | the flush empties even a full ring and unlinks every uop, unless it meets that assertion; ROB_eff_num ends at minus the committed uops of the oldest entry's group, so the ROB is valid iff there are none |
| AtomicCommit.Mop.CheckComplete | xiosim/ZPIPE-commit/commit-DPM.cpp:373-395 | complete_index ends at -1 iff all uops of the macro-op have completed, and otherwise at its first one that has not |
| AtomicCommit.CommitDPM.Complete | xiosim/ZPIPE-commit/commit-DPM.cpp:375-376 | the back end may report a completion of an allocated uop at any time, as long as completions that have happened stand |
| AtomicCommit.CommitDPM.Insert | xiosim/ZPIPE-commit/commit-DPM.cpp:732-739 | a fused group enters the ROB behind all others |
| AtomicCommit.CommitDPM.FuseInsert | xiosim/ZPIPE-commit/commit-DPM.cpp:741-744 | the next uop of a fused group is allocated without an entry of its own |
| AtomicCommit.CommitDPM.CommitHead | xiosim/ZPIPE-commit/commit-DPM.cpp:398-488 | the head uop commits unless its store is refused; its entry leaves with the last uop of the group and otherwise passes to the next one; ROB_eff_num does not go below 0 |
| AtomicCommit.CommitDPM.Step | xiosim/ZPIPE-commit/commit-DPM.cpp:346-596 | one cycle only moves uops from the ROB to the committed ones, in order; at most `width` entries leave; every store that commits has been accepted by the store queue; if fewer leave, the head cannot commit: its jeclear is in flight, it is a branch at the branch limit, its macro-op is not done, or its store is refused |
| AtomicCommit.PartBeforeInGroup | xiosim/ZPIPE-commit/commit-DPM.cpp:680-690 | the k-th uop of a fused group has k uops of it before itself, which is what a flush counts twice |
| AtomicCommit.BranchEndsAre | xiosim/ZPIPE-commit/commit-DPM.cpp:497-498 | what counts against the branch limit are the last uops of branches |
| AtomicCommit.CommitDPM.Recover | xiosim/ZPIPE-commit/commit-DPM.cpp:664-721 | exactly the entries younger than the macro-op are squashed, unless an assertion is met at an oldest entry of which only the last uop of a fused group is left; what is left is valid iff an entry is left or no macro-op has committed in part; ROB_eff_num ends at minus the uops of the oldest entry's group that have committed |
| AtomicCommit.FlushIsAtomic | xiosim/ZPIPE-commit/commit-DPM.cpp:697-721 | after a full flush every macro-op with a committed uop is there with all its uops iff no macro-op had committed in part, and exactly then commit stays atomic |
| AtomicCommit.HalfCommits | xiosim/ZPIPE-commit/commit-DPM.cpp:413-416 | a macro-op commits in part: with the operations of the ROB, a store's address commits in a cycle that refuses its data |
| AtomicCommit.HalfCommittedFlushed | xiosim/ZPIPE-commit/commit-DPM.cpp:697-721 | a full flush then fails its assertion if the halves are fused, or ends with ROB_eff_num == -1 in a build without assertions; if they are not fused the count is 0; in all cases but the assertion the data is lost |
| AtomicCommit.CommitDPM.CommitIsAtomic | xiosim/ZPIPE-commit/commit-DPM.cpp:372-412 | over whole runs, with recoveries and flushes, no uop has committed before every uop of its macro-op had completed, and uops commit in program order |
| AtomicCommit.NotInterleaved | xiosim/ZPIPE-commit/commit-DPM.cpp:398-488 | macro-ops do not interleave: where one begins its uops stand one after the other in flow order |
| AtomicCommit.CompletedIsAllocated | xiosim/ZPIPE-commit/commit-DPM.cpp:401-403 | a macro-op that is done has no uop that was not allocated |
| AtomicCommit.NothingPartlyCommitted | xiosim/ZPIPE-commit/commit-DPM.cpp:398-403 | the ROB never runs empty in the middle of a macro-op |
| MemoryController.PickIsRight | xiosim/ZCOMPS-MC/MC-simple.cpp:110-134 | the pick is the oldest unstarted request to the open page, or the oldest unstarted one; FIFO takes the oldest |
| MemoryController.StepKeepsInv | xiosim/ZCOMPS-MC/MC-simple.cpp:93-183 | a cycle keeps started <= finished <= returned, one fill for every returned request with a previous cache; at most one request starts, one fills and one retires |
| MemoryController.EnqueueKeepsInv | xiosim/ZCOMPS-MC/MC-simple.cpp:64-90 | so does an arrival |
| MemoryController.Conservation | xiosim/ZCOMPS-MC/MC-simple.cpp:64-181 | over every run, retired and queued requests together are the accepted ones in order of arrival, each with its time of arrival |
| MemoryController.RunExtends | xiosim/ZCOMPS-MC/MC-simple.cpp:92-183 | the log of a request only grows: nothing that has happened to it is undone |
| MemoryController.StepCostsPatience | xiosim/ZCOMPS-MC/MC-simple.cpp:104-145 | while a request waits, every cycle in which DRAM is available starts another one and costs one unit of its patience |
| MemoryController.StarvationBound | xiosim/ZCOMPS-MC/MC-simple.cpp:102-181 | over every run of either policy, at most k + RQ_size - 1 other requests start before one that was enqueued behind k others |
| MemoryController.NoStarvation | xiosim/ZCOMPS-MC/MC-simple.cpp:102-181 | with cycles that go forward, a request has started after at most that many cycles |
| MemoryController.EveryRequestLeaves | xiosim/ZCOMPS-MC/MC-simple.cpp:93-183 | over every run of either policy with a free bus and DRAM latencies of at most L cycles, a request k places behind the head has returned, filled its cache and left the queue after 2k + RQ_size + L + 1 cycles |
| MemoryController.FifoStartsInOrder | xiosim/ZCOMPS-MC/MC-simple.cpp:117-125 | under FIFO scheduling requests start in order of arrival |
| MemoryAccounts.CycleIsExact | xiosim/ZCOMPS-MC/MC-simple.cpp:102-181 | a cycle with DRAM available sends an unstarted request iff there is one, which is finished at now plus the latency, and no other request's times change; exactly those finished requests go back that need no bus or find it free, with none that takes it ahead of them; the head leaves iff it is back |
| MemoryAccounts.EveryRequestTakesItsLatency | xiosim/ZCOMPS-MC/MC-simple.cpp:139-140 | over every run, a request that has started was sent in a cycle of the run and is finished after exactly the DRAM latency of that cycle |
| MemoryAccounts.NoneBackEarly | xiosim/ZCOMPS-MC/MC-simple.cpp:136-168 | so with DRAM latencies of at least m no request comes back less than m cycles after its start |
| MemoryAccounts.BooksAreRight | xiosim/ZCOMPS-MC/MC-simple.cpp:141-157 | after every run total_dram_cycles and total_service_cycles are the sums over the requests, last_request is the page of the request sent last, and next_available_time the cycle after its start |
| SimpleMC.MCSimple.Enqueue | xiosim/ZCOMPS-MC/MC-simple.cpp:64-90 | the ring does what the log says |
| SimpleMC.MCSimple.FindRequest | xiosim/ZCOMPS-MC/MC-simple.cpp:110-134 | the scan of the ring finds the slot of the picked request |
| SimpleMC.MCSimple.StartRequest | xiosim/ZCOMPS-MC/MC-simple.cpp:104-145 | the first part of a cycle, on the ring: it refines the log's start, which MemoryAccounts.CycleIsExact describes |
| SimpleMC.MCSimple.ReturnRequests | xiosim/ZCOMPS-MC/MC-simple.cpp:147-168 | the second part: finished requests go back, at most one over the bus |
| SimpleMC.MCSimple.RetireHead | xiosim/ZCOMPS-MC/MC-simple.cpp:170-181 | the third part: the head leaves iff it has been returned |
| SimpleMC.MCSimple.Step | xiosim/ZCOMPS-MC/MC-simple.cpp:93-183 | a whole cycle on the ring refines the cycle on the log, so that all results of MemoryController and MemoryAccounts hold of it; the valid slots stay exactly the window |
| StagedPipe.Pipe.ShiftRow | xiosim/ZPIPE-alloc/alloc-DPM.cpp:417-429 | a stage moves on to the empty one ahead; the items and their order stay, and occupancy counts them |
| StagedPipe.Pipe.ClearBehind | xiosim/ZPIPE-decode/decode-DPM.cpp:501-525 | clearing from the youngest slot removes exactly the items behind the last one at which it stops, or all |
| StagedPipe.WalkOn | xiosim/ZPIPE-alloc/alloc-DPM.cpp:412-431 | one walk down the stages moves everything behind the oldest empty stage on by one, and nothing else |
| DecodeOrder.StreamCut | xiosim/ZPIPE-decode/decode-DPM.cpp:430-455 | the uops of the macro-ops fetched up to one end with a uop of it, and none of the later ones is its own |
| DecodeOrder.QueueCut | xiosim/ZPIPE-decode/decode-DPM.cpp:457-477 | cutting the uop queue behind the last uop of a macro-op leaves exactly the uops that are not younger |
| DecodeOrder.PipeCut | xiosim/ZPIPE-decode/decode-DPM.cpp:501-525 | cutting the pipe behind a macro-op leaves exactly what is not younger |
| DecodeOrder.StreamHolds | xiosim/ZPIPE-decode/decode-DPM.cpp:266-271 | the stream of the macro-ops holds a place of a flow iff it is a uop, not an immediate, and not a fused body |
| DecodeOrder.StreamInOrder | xiosim/ZPIPE-decode/decode-DPM.cpp:266-271 | it is in program order, so that every uop is there once |
| DecodeOrder.SizesOfMop | xiosim/ZPIPE-decode/decode-DPM.cpp:274-277 | the entries of a macro-op count for all its uops in uopQ_eff_num: a head for the bodies that are not queued |
| DecodeDPM.CoreDecode.ToQueue | xiosim/ZPIPE-decode/decode-DPM.cpp:256-311 | decoded uops enter the queue in fetch order, without the places of immediates and without fused bodies (StreamHolds), until it is full or the last stage is empty |
| DecodeDPM.CoreDecode.CheckTarget | xiosim/ZPIPE-decode/decode-DPM.cpp:174-210 | a resteer happens iff fetch went on at no possible successor of the macro-op, as a phantom or as a target resteer; fetch is sent to one, and exactly the younger macro-ops are dropped |
| DecodeDPM.CoreDecode.AdvanceStage | xiosim/ZPIPE-decode/decode-DPM.cpp:323-338 | a stage moves on slot by slot; a resteer in the middle keeps order, drops only what is younger and corrects only the one prediction |
| DecodeDPM.CoreDecode.Shuffle | xiosim/ZPIPE-decode/decode-DPM.cpp:313-340 | without a resteer, the walk moves everything behind the oldest empty stage on, down to the first row that microcode holds up: no such row moves |
| DecodeDPM.HeldUpUntilStart | xiosim/ZPIPE-decode/decode-DPM.cpp:318-321 | a row whose first macro-op has a microcode stamp moves on in the first cycle after it; without one it is not held up |
| DecodeDPM.CoreDecode.Fill | xiosim/ZPIPE-decode/decode-DPM.cpp:342-418 | macro-ops enter in order from the queue; filling stops only for a full row, the branch limit, or a first free decoder that cannot handle the next one; no decoder but the first holds what it cannot handle; the microcode start is stamped iff decoder 0 takes a macro-op that needs it |
| DecodeDPM.CoreDecode.Step | xiosim/ZPIPE-decode/decode-DPM.cpp:250-421 | a cycle drains the last stage until the uop queue is full, moves the stages on and fills the first one, and keeps program order: either the consumed macro-ops extend the fetch order, or there is a resteer and exactly the younger ones are gone |
| DecodeDPM.CoreDecode.UopConsume | xiosim/ZPIPE-decode/decode-DPM.cpp:558-569 | the uop handed to allocation is the next one in fetch order, a uop and no immediate, and no body |
| DecodeDPM.CoreDecode.RecoverUopQ | xiosim/ZPIPE-decode/decode-DPM.cpp:457-477 | the youngest entries up to one of the macro-op leave the queue, and the effective count stays exact |
| DecodeDPM.CoreDecode.Recover | xiosim/ZPIPE-decode/decode-DPM.cpp:430-455 | recovery keeps exactly the macro-ops up to the given one across all stages and the queue |
| DecodeDPM.CoreDecode.Flush | xiosim/ZPIPE-decode/decode-DPM.cpp:423-428 | a full flush leaves nothing |
| AllocDPM.CoreAlloc.DispatchGroup | xiosim/ZPIPE-alloc/alloc-DPM.cpp:167-379 | a group is dispatched from where it was held up before; every uop takes its entries, and the group is held up by the first uop that lacks one |
| AllocDPM.CoreAlloc.Dispatch | xiosim/ZPIPE-alloc/alloc-DPM.cpp:144-406 | dispatch extends what has been dispatched, in program order, with uops stamped with this cycle; a ROB entry goes for each head, an LDQ entry for each load, an STQ entry for each store address, an RS entry for each head that executes; it stops iff a drain is not over, for the first uop that lacks an entry, or with the last stage empty |
| AllocDPM.LeftIsSpent | xiosim/ZPIPE-alloc/alloc-DPM.cpp:211-256 | the entries that are left are those there were, less one ROB entry for each head, one LDQ entry for each load, one STQ entry for each store address and one RS entry for each head that executes |
| AllocDPM.RoomForAll | xiosim/ZPIPE-alloc/alloc-DPM.cpp:171-207 | there is room for a sequence of uops iff each, with what those before it have taken, lacks nothing |
| AllocDPM.StallIsFirst | xiosim/ZPIPE-alloc/alloc-DPM.cpp:173-207 | the stall reported is the first exhausted structure in the order ROB, LDQ, STQ, RS |
| AllocDPM.HeldUpWithoutNeed | xiosim/ZPIPE-alloc/alloc-DPM.cpp:174-207 | a uop is held up although every entry it would take is free iff it is a body in front of a full ROB, or a body or a uop of a trap, either of which needs no RS entry, in front of full reservation stations (or a load that is a store address too, in front of a full STQ) |
| AllocDPM.HeldUpBody | xiosim/ZPIPE-alloc/alloc-DPM.cpp:174-207 | this happens: to a body whose head took the last ROB or RS entry, and to a trap |
| AllocDPM.CoreAlloc.Shuffle | xiosim/ZPIPE-alloc/alloc-DPM.cpp:412-431 | everything behind the oldest empty stage moves on by one |
| AllocDPM.CoreAlloc.Fill | xiosim/ZPIPE-alloc/alloc-DPM.cpp:433-447 | min(width, available) groups enter iff the first stage is empty |
| AllocDPM.CoreAlloc.Step | xiosim/ZPIPE-alloc/alloc-DPM.cpp:138-450 | a cycle dispatches, moves the stages on and fills the first one, and keeps program order, the marks and the same count of entries |
| AllocDPM.CoreAlloc.ExactlyOnce | xiosim/ZPIPE-alloc/alloc-DPM.cpp:167-379 | over whole runs, dispatched and pending uops are together the uops that came from decode, in program order and each once; when_allocated tells them apart, also in a group dispatched in part |
| AllocDPM.CoreAlloc.Recover | xiosim/ZPIPE-alloc/alloc-DPM.cpp:452-475 | exactly the groups of younger macro-ops leave the pipe |
| AllocDPM.NextOnce | xiosim/ZPIPE-alloc/alloc-DPM.cpp:169-171 | the uop to be dispatched next has not been dispatched and is not queued a second time |
| TicketLock.StepKeepsInv | xiosim/synchronization.h:53-77 | every step of every thread keeps the invariant of the lock word, also when incw reads and writes in two steps and both halves wrap around |
| TicketLock.LockIsSafe | xiosim/synchronization.h:53-77 | with at most 65536 threads at most one is in the critical section and entry follows the order of xaddl, in every schedule |
| TicketLock.BoundedWait | xiosim/synchronization.h:53-77 | nobody starves: in every schedule of up to 65536 threads, whoever waits behind k others enters before the threads whose turn it is have made 4k + 2 steps |
| TicketLock.EntersInTwoSteps | xiosim/synchronization.h:61-67 | while somebody waits and nobody is in the critical section, the first to have come enters with two of its own steps, whatever the others do |
| TicketLock.SomebodysTurn | xiosim/synchronization.h:53-77 | while some thread is between lock and unlock, it is the turn of one |
| TicketLock.SafeExactlyUpTo65536Threads | xiosim/synchronization.h:53-77 | all schedules are safe iff there are at most 65536 threads |
| TicketLock.TicketCollision | xiosim/synchronization.h:53-69 | with one more thread, a schedule after which two threads are in the critical section |
| CoreBarrier.NextKeepsInv | xiosim/sim-loop.cpp:182-257 | every step of every thread, every activation, and every deactivation of a core that does not wait keeps the barrier's invariant |
| CoreBarrier.GlobalStepIsSafe | xiosim/sim-loop.cpp:187-214 | in every run in which no waiting core is deactivated, whichever core is activated first, the global step is run only by the active core with the smallest number, holding cycle_lock alone, with all active cores finished |
| CoreBarrier.CoresStayInStep | xiosim/sim-loop.cpp:182-257 | since its activation a core has arrived as often as the shared part was stepped, or once more exactly while its flag is set |
| CoreBarrier.MasterIsFirstActive | xiosim/sim-loop.cpp:430-458 | min_coreID is the first active core from the first step on that activates core 0 or deactivates a core, and 0 until then |
| CoreBarrier.NobodyStepsBefore | xiosim/sim-loop.cpp:189-214 | until then no global step is run |
| CoreBarrier.CountingIsExact | xiosim/sim-loop.cpp:191-202 | the master's counting test means that all active cores have finished, as finished cores are active |
| CoreBarrier.ActivatedIsAwaited | xiosim/sim-loop.cpp:448-458 | right after the activation of a core the test for the global step fails, as the comment promises, also if its flag is still set from waiting when it was deactivated |
| CoreBarrier.DeactivatedWhileWaiting | xiosim/sim-loop.cpp:430-446 | a reachable state in which deactivating a waiting core lets a global step run too early |
| CoreBarrier.LeavesTooEarly | xiosim/sim-loop.cpp:430-446 | from every state of the invariant: if a core is deactivated while its flag is set and another active core, not the master, has not finished, the threads alone can come to a global step before that core has arrived, unless the master waits for a step already taken |
| CoreBarrier.StrandedForGood | xiosim/sim-loop.cpp:189-211 | a master that waits for a step already taken waits for good, and no global step is run again, until cores are activated or deactivated |
| CoreBarrier.StrandedExactly | xiosim/sim-loop.cpp:189-211 | the threads alone can come to the next global step iff the active master is not stranded |
| CoreBarrier.ConsiderateIsLive | xiosim/sim-loop.cpp:182-257 | in every run in which a core with a smaller number than the master's is activated only while the master does not wait, no master is stranded and the next global step can always be reached |
| CoreBarrier.InconsiderateStrands | xiosim/sim-loop.cpp:448-458 | after any other activation there is a run that strands the old master |
| CoreBarrier.MasterCanBeStranded | xiosim/sim-loop.cpp:207-255 | a disciplined run that reaches such a state: the master's role goes to core 0 and comes back within one wait |
| TageHistory.HistUpdate | xiosim/ZCOMPS-bpred/bpred-tage.cpp:56-66 | the eight-word update is one shift of the 512-bit history |
| TageHistory.HistHash | xiosim/ZCOMPS-bpred/bpred-tage.cpp:80-107 | for hash lengths from 1 to 30 and histories up to 512 bits, the row and position loop yields the exclusive or of the consecutive chunks, and reads no word past the last |
| TageHistory.FoldOne | xiosim/ZCOMPS-bpred/bpred-tage.cpp:89-104 | one round adds the next chunk, whether or not it crosses a word |
| TageHistory.FoldedIsParity | xiosim/ZCOMPS-bpred/bpred-tage.cpp:87-105 | every bit of the folded history is the parity of its bit over the chunks |
| TageHistory.HistoryIsLatestFirst | xiosim/ZCOMPS-bpred/bpred-tage.cpp:56-66 | bit k of the history is the outcome of k branches ago |
| TageHistory.Tage.Recover | xiosim/ZCOMPS-bpred/bpred-tage.cpp:446-452 | the history becomes that of the checkpoint with the true outcome |
| TageHistory.Tage.Flush | xiosim/ZCOMPS-bpred/bpred-tage.cpp:454-459 | the history becomes that of the checkpoint |
| TageHistory.Speculation.Predict | xiosim/ZCOMPS-bpred/bpred-tage.cpp:297-298 | a branch that is fetched saves the history and extends it by its prediction; every branch in flight keeps the history that it was fetched with |
| TageHistory.Speculation.Mispredict | xiosim/ZCOMPS-bpred/bpred-tage.cpp:446-452 | whichever branch in flight turns out mispredicted, the history becomes that of the path up to it with the true outcome; older checkpoints stay right |
| TageHistory.Speculation.HistoryIsPath | xiosim/ZCOMPS-bpred/bpred-tage.cpp:440-459 | over all runs of predictions, nested mispredictions, squashes and commits, the history holds exactly the branches on the core's path, latest first: wrong paths leave no trace |
| PageTables.Memory.NewMap | xiosim/memory.cpp:71-98 | exactly the pages from addr through page_round_up(addr + length) are mapped, to new consecutive frames if they were not; the loop ends even where the address wraps to 0 |
| PageTables.Memory.DelMap | xiosim/memory.cpp:100-124 | exactly those pages are unmapped |
| PageTables.Memory.TranslationIsInjective | xiosim/memory.cpp:148-165 | two mapped addresses have one translation iff they are the same address of the same space |
| PageTables.Memory.TranslationKeepsPlace | xiosim/memory.cpp:148-165 | translation replaces the page of an address and keeps the place in it; DO_NOT_TRANSLATE keeps the address |
| PageTables.Memory.FallbackIsDistinct | xiosim/memory.cpp:148-165 | a translation lies in page 0 iff the address is not mapped; the offset is kept |
| PageTables.FramesGrow | xiosim/memory.cpp:90-93 | handing out the next frame keeps all frames distinct and in range |
| PageTables.CountsChange | xiosim/memory.cpp:95-96 | page_count and phys_page_count stay the sizes of the tables and their sum |
| PageTables.Memory.NotifyWrite | xiosim/memory.cpp:167-172 | a write to an unmapped page maps the walk of one page length from it |
| PageTables.WritePages | xiosim/memory.cpp:167-172 | that walk is two pages, or none in the last page of the address space (the header says a page) |
| PageTables.Memory.NotifyMmap | xiosim/memory.cpp:174-185 | the rounded range is mapped, and the break moves if asked for and passed |
| PageTables.Memory.NotifyMunmap | xiosim/memory.cpp:187-191 | the range from page_round_up(addr) on is unmapped |
| PageTables.Memory.UpdateBrk | xiosim/memory.cpp:193-213 | the break moves and the pages between are mapped or unmapped |
| PageTables.Memory.MapStack | xiosim/memory.cpp:215-226 | the pages from the top of the stack through its rounded bottom are mapped |
| PageTables.Memory.MmapThenMunmap | xiosim/memory.cpp:174-191 | for every range, unmapping what was just mapped restores the table iff every page newly mapped is unmapped and no page unmapped was mapped before |
| PageTables.RestoredAway | xiosim/memory.cpp:174-191 | away from the end of the address space that holds iff no page that munmap covers was mapped and the address is page-aligned or its own page was mapped |
| PageTables.UnalignedStays | xiosim/memory.cpp:174-191 | it does not for an unaligned address in an empty table |
| PageTables.NeighbourLost | xiosim/memory.cpp:174-191 | nor for the second of two neighbouring pages, mapped in turn |
| PageTables.MmapSpans | xiosim/memory.cpp:174-191 | away from the end of the address space both walks cover one page more than the length needs |
| Btac.BtacSet.Lookup | xiosim/ZCOMPS-btb/btb-btac.cpp:125-148 | the most recently used entry with the tag, or none |
| Btac.BtacSet.PutToFront | xiosim/ZCOMPS-btb/btb-btac.cpp:192-201 | the entry moves to the front, and both link directions are right again |
| Btac.BtacSet.Update | xiosim/ZCOMPS-btb/btb-btac.cpp:151-244 | only taken branches are stored; with a fresh lookup an update is a touch of the recency sequence; with a stale one the set still keeps its entries and links, and exactly one entry is written and moves to the front |
| Btac.Residency | xiosim/ZCOMPS-btb/btb-btac.cpp:151-244 | an updated branch is found with its target iff fewer other tags than ways have been updated since |
| Btac.TouchKeepsBehind | xiosim/ZCOMPS-btb/btb-btac.cpp:187-243 | the lines ahead of a line are exactly the tags updated since it was |
| StreamPrefetch.Prefetcher.LookupAddress | xiosim/ZCOMPS-prefetch/prefetch-stream.cpp:80-204 | a lookup does what the specification on the two sequences says, permutes the entries of each table, and keeps their pages apart |
| StreamPrefetch.LookupKeepsApart | xiosim/ZCOMPS-prefetch/prefetch-stream.cpp:80-204 | no lookup makes two entries of a table hold the same page, other than page 0 |
| StreamPrefetch.StreamBegins | xiosim/ZCOMPS-prefetch/prefetch-stream.cpp:131-160 | the first access to an unknown page prefetches nothing and starts an upward stream |
| StreamPrefetch.OthersDoNotDisturb | xiosim/ZCOMPS-prefetch/prefetch-stream.cpp:84-204 | fewer lookups in other pages than its table has entries leave a stream, upward or downward, where it is |
| StreamPrefetch.StreamIsFollowed | xiosim/ZCOMPS-prefetch/prefetch-stream.cpp:84-204 | so every later access of an upward stream prefetches the line after it |
| StreamPrefetch.TurnsDown | xiosim/ZCOMPS-prefetch/prefetch-stream.cpp:120-201 | a step down in a page that only the upward table knows prefetches nothing and begins a downward stream |
| StreamPrefetch.TurnsUp | xiosim/ZCOMPS-prefetch/prefetch-stream.cpp:155-182 | a step up in a page that only the downward table knows begins an upward stream |
| StreamPrefetch.JumpIsIgnored | xiosim/ZCOMPS-prefetch/prefetch-stream.cpp:84-204 | an access to a known page that is not next to its last ones changes nothing |
| StreamPrefetch.DownIsFollowed | xiosim/ZCOMPS-prefetch/prefetch-stream.cpp:128-154 | every later access of a downward stream prefetches the line before it, whatever happens in other pages, if fewer lookups than the table has entries come in between |
| StreamPrefetch.WalkUp | xiosim/ZCOMPS-prefetch/prefetch-stream.cpp:84-204 | walking up through an unknown page prefetches from the second access on, the line after each |
| StreamPrefetch.WalkDown | xiosim/ZCOMPS-prefetch/prefetch-stream.cpp:84-204 | walking down prefetches from the third access on, the line before each: the first step down only turns the stream |
| StreamPrefetch.StreamTable.RecordEntry | xiosim/ZCOMPS-prefetch/prefetch-stream.cpp:110-117 | an entry records the address and moves to the front of its list |
| VoltageAverage.SweepIsIntegral | xiosim/zesto-dvfs.cpp:36-48 | the sum over the queued intervals is the integral of the voltage in force |
| VoltageAverage.VfController.GetAverageVdd | xiosim/zesto-dvfs.cpp:22-52 | average times elapsed cycles is the integral since the last query; with no record or no time, the current voltage |
| VoltageAverage.VfController.ChangeVf | xiosim/zesto-dvfs.cpp:54-57 | recording a change does not alter the past |
| VoltageAverage.AverageWithinBounds | xiosim/zesto-dvfs.cpp:36-51 | the average lies between the least and the greatest voltage in force |
| VoltageAverage.SamplingDoesNotMatter | xiosim/zesto-dvfs.cpp:22-52 | however often the average is asked for, averages times cycles add up to the same integral |
| LoadWaitTable.Lwt.Refresh | xiosim/ZCOMPS-memdep/memdep-lwt.cpp:70-74 | lazy clearing leaves the table of the current interval |
| LoadWaitTable.Lwt.Lookup | xiosim/ZCOMPS-memdep/memdep-lwt.cpp:64-80 | a load waits iff its bit was set in the current interval and a store address is unknown, however many intervals passed since the last use |
| LoadWaitTable.Lwt.Update | xiosim/ZCOMPS-memdep/memdep-lwt.cpp:83-95 | the bit is set for the current interval |

## Left out

- AluHeap.Remove: order afterwards holds exactly under `SinksRight`, because the code descends into the later child.
- LoadStoreOrder.IssueCheckExact: the check meets its comment only while older stores leave an STQ entry free.
- CommitRecovery.CommitDPM.RobInsert: marks the head as allocated in the same step, which allocation does a little later in the cycle; ROB_index is not kept.
- CommitRecovery.CommitDPM.RobFuseInsert: ROB_index is not kept.
- CommitRecovery.CommitDPM.RecoverAll: leaves a consistent ROB only if the oldest group has not committed in part; what a program does after a failed assertion is not modelled.
- CommitRecovery.CommitDPM.CommitHead: the register mappings and the memory state that the oracle's commit_uop updates are left out.
- AtomicCommit.CommitDPM.Recover: keeps commit atomic only if an entry is left or no macro-op has committed in part; which uops the squash unlinks is in CommitRecovery, and nothing is said of the state after a failed assertion but which entry is left.
- LsqDiscipline.Dispatch: that a data half follows its address half is required of the decoder, which is not part of this model.
- LsqDiscipline.ExecuteLoad: a store of which only the data half is still in the queue is out of the search; the load then takes its value from the caches.
- LsqDiscipline.Recover: the queues are empty after a full flush only if the oldest uop in flight is not a data half.
- CommitRecovery.CommitDPM.SquashEntry: the calls that squash_uop makes into the queues and reservation stations are modelled in ExecSTM or not at all, and action ids are left out.
- AtomicCommit.CommitDPM.CommitHead: the calls into the load and store queues are in ExecSTM; statistics, slip counters and oracle bookkeeping are left out.
- ExecSTM.ExecSTM.StoreExec: the store's address comes from its STQ entry, where the code asks the oracle for the same address; pipes, functional units and jeclears are left out.
- ExecSTM.ExecSTM.LoadExec: the wake-up of consumers and a return's resteer are left out.
- ExecSTM.ExecSTM.STQDeallocateStd: the requests to the caches are reduced to whether these accept them.
- ReadyQueue.Port.InsertReadyUop: nodes are allocated anew and not taken from a pool.
- AllocDPM.CoreAlloc.Dispatch: port binding and port_loading, operand readiness, and the immediate completion of nops and fences are left out; the links to producers are in Dependences.
- DecodeDPM.CoreDecode.CheckTarget: the recovery of oracle, fetch and predictor is reduced to the corrected prediction.
- CoreBarrier.GlobalStepIsSafe: needs that no waiting core is deactivated; LeavesTooEarly says what such a deactivation leads to.
- CoreBarrier.ConsiderateIsLive: progress is reachability by the threads' steps; fairness of the scheduler is not modelled.
- TicketLock.LockIsSafe: steps of the threads are sequentially consistent, with the two halves of incw as separate steps.
- PageTables.Memory.NotifyWrite: requires what the assertion of mem_newmap demands, that an unmapped address is not in page 0.
- Btac.BtacSet.Update: policy 'l' only; the random policy 'r' is left out, and so are the choice of the set and the tag from the PC, and the counters.
- VoltageAverage.VfController.GetAverageVdd: arithmetic on reals instead of doubles; last_power_computation, which the code does not initialise, is a constructor parameter.
- LoadWaitTable.Lwt.Lookup: the index is given, not masked from the PC.
- TageHistory.HistHash: words are sequences of bits, and the hash length is at most 30, beyond which the mask overflows; tables, tags and counters of the predictor are left out.
- Cycle counters, action ids and frame numbers are unbounded integers; TICK_T_MAX is the separate value `Never`.
- The release behaviour of assertions that do not stop the simulator (MC_assert, zesto_assert) when they fail.
- port_loading across STM squashes, which is not conserved; it is not modelled.
- commit-IO-DPM.cpp: its recovery takes the remainder of a possibly negative tail.
- HELIX signals, zero-length flows, trap handling and the senior store queue.
- Caches, oracle, fetch, uncore, DRAM timing, decoding tables (uop_cracker.cpp, decode.cpp, fu.cpp) and the feeder.
- reg_stats, histograms, ZTRACE output, configuration, power models and scripts.
- Static, perfect and random predictors, the `*-none.cpp` components, counter tables and singleton structures would only add easy members.
