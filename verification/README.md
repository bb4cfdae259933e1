# A verified model of the simulator's state machines

The repository is a cycle-level GPU simulator. This project models the parts of it whose correctness depends on
several functions, or on a whole run, being right together, and proves what they promise:

- **Divergence and reconvergence.** `ControlFlowGraph` and `Postdominators` compute postdominators and immediate
  postdominators of a function's blocks; `SimtStack` is the reconvergence stack of a warp; `WarpRun` and `RegionRun`
  are whole runs of a warp; `Reconvergence` composes them: with the reconvergence PCs that the analysis supplies, a
  warp executes for each of its lanes exactly what the lane would execute alone. `StackDepth` bounds the stack;
  `StateMachine` holds the induction over runs, `FiniteSets` the sizes of sets.
- **Caches.** `CacheTags` is the tag array and `Replacement` what its time stamps mean over whole runs; `MissCache` is
  the cache with its miss-status registers and miss queue, and `DirtyLines` says where what was written to its lines
  goes; `TexCache` is the prefetching texture cache with `RingFifo` as its reorder buffer, `CacpTags` the
  criticality-aware lookup with its aging loop.
- **DRAM.** `DelayQueue` is the padded queue (as a linked list and as what it does), `DramTiming` the timing counters
  and what they guarantee of a command trace, `FrFcfs` the scheduler, `RequestFlow` the way of a request, `Dram` the
  controller.
- **Addresses and accesses.** `AddressDecoding` splits an address, `CellAddresses` says which memory cells are reached;
  `Transactions`, `AtomicSlots` and `Coalescing` merge a warp's accesses; `PagedMemory` is the functional memory. `Bits`
  has the arithmetic of bits.
- **Streams.** `Streams` is the protocol between host threads and the simulator thread.

Classes stand for the source's objects with fields updated in place; loops stand for its loops. Functions and lemmas
beside them say what the operations mean. Methods of a class are proved against those functions, so that the
invariants hold in every reachable state.

Where the code does not do what it seems to promise, the exact condition is proved:

- An update of the stack loses no live lane and keeps each lane at its own PC if and only if, when one side of a
  divergent step is already at the reconvergence PC of the ordinary entry it splits, the branch reconverges there too
  (`SimtStack.UpdateTracksIffSidesMeet`). The invariant that whole runs rely on also asks that a branch that splits a
  call entry has a reconvergence PC (`SimtStack.UpdateKeepsLockstepIffNested`). The postdominator analysis supplies
  both for branches. A BREAK gets no reconvergence pair, and a predicated one that splits the warp fails the condition
  when its target is where the entry reconverges (`SimtStack.BreakMisplacesALane`).
- A line that a miss reserves has a read outstanding if and only if its block is not just being answered
  (`MissCache.ReservedLineHasReadIff`); over whole runs the lines reserved without a read are exactly those whose last
  miss found its block being answered (`MissCache.ReservedLinesAwaitOneRead`), and `MissCache.StrandALine` is a run
  that leaves such a line: the block was evicted before all its answers were given, so the miss merges and sends no
  read. The line stays reserved until the register has drained and a later miss on the block sends one.
- Under write-back nothing that was written to a line is lost (`DirtyLines.NothingIsLost`). Under the policies that
  evict a line when it is written, a modified line is dropped when a write that evicts it hits, although only that
  write goes to memory; `DirtyLines.Loses` is the exact condition.
- Flushing a cache keeps it consistent if and only if no read is outstanding (`MissCache.DataCache.Flush`).
- Atomic accesses that overlap an earlier one are not always put into a later transaction, unless they are aligned and
  of one size; `AtomicSlots.LaterSlotIff` says when, and `AtomicSlots.UnalignedGoesEarlier` shows a case.
- The data queue of the DRAM controller has room for the burst that switches it to writing if and only if the write
  latency is at most the read latency (`Dram.SwitchToWriteFitsIff`); the model asks for that of a configuration.
- An access that crosses a 32-byte chunk is covered by its segment's transaction if and only if the chunk of its last
  byte lies in the tightest block around the chunks that accesses start in (`Transactions.IsCoveredIff`); on its own
  it is never covered (`Transactions.AloneIsCoveredIff`).
- A read that touches the last page of the 32-bit address space fails, because the end of that page is computed as 0
  (`PagedMemory.MemorySpace.Read`); writes there work.
- Decoding addresses is a bijection if and only if no bit is selected by two masks or beyond the address
  (`CellAddresses.DecodingIsBijectiveIff`).
- With explicitly placed channel bits, channels are in range if and only if the mask has no more bits than the number
  of channels needs; the code does not check it (`AddressDecoding.ChannelsExistIff`).

## Model

| member | source | states |
|---|---|---|
| `ControlFlowGraph.SuccessorIsPostdominated` | src/cuda-sim/ptx_ir.cc:629-631 | what postdominates a block and is not the block itself postdominates each of its successors |
| `ControlFlowGraph.PostdominanceIsTransitive` | src/cuda-sim/ptx_ir.cc:656-666 | postdominance is transitive: what lets a candidate be dropped when another candidate's set contains it |
| `ControlFlowGraph.PostdominanceIsAntisymmetric` | src/cuda-sim/ptx_ir.cc:656-666 | two different blocks that reach the exit do not postdominate each other, so two candidates never drop each other |
| `ControlFlowGraph.PostdominatorsFormAChain` | src/cuda-sim/ptx_ir.cc:669-673 | of two postdominators of a block one postdominates the other, which is why at most one candidate survives |
| `ControlFlowGraph.ExitPostdominators` | src/cuda-sim/ptx_ir.cc:616 | only the exit postdominates the exit |
| `ControlFlowGraph.ImmediatePostdominatorExists` | src/cuda-sim/ptx_ir.cc:679-680 | every block other than the exit from which the exit can be reached has an immediate postdominator |
| `ControlFlowGraph.PostdominatingSuccessorIsImmediate` | src/cuda-sim/ptx_ir.cc:669-678 | if a strict postdominator of a block is one of its successors, it is the immediate one |
| `Postdominators.Intersect` | src/cuda-sim/ptx_ir.cc:538-550 | the set left over is exactly the intersection |
| `Postdominators.IsEqual` | src/cuda-sim/ptx_ir.cc:552-560 | true if and only if the sets are equal |
| `Postdominators.UpdateStaysDescending` | src/cuda-sim/ptx_ir.cc:622-637 | one transfer keeps every set a superset of the true postdominators and of its own next value |
| `Postdominators.TotalSizeDrops` | src/cuda-sim/ptx_ir.cc:622-637 | each change makes the sets smaller in total: the fixpoint loop terminates |
| `Postdominators.FixpointIsOnEveryPath` | src/cuda-sim/ptx_ir.cc:622-637 | at a fixpoint every listed block lies on every path to the exit |
| `Postdominators.FixpointIsExact` | src/cuda-sim/ptx_ir.cc:609-638 | for every graph the fixpoint reached is exactly the set of blocks on every path to the exit, not just some fixpoint |
| `Postdominators.BeatenCandidateIsIdle` | src/cuda-sim/ptx_ir.cc:652-668 | a candidate that has been dropped would drop nothing that its own droppers do not drop: erasing during the iteration is harmless |
| `Postdominators.UnbeatenIsImmediate` | src/cuda-sim/ptx_ir.cc:652-680 | the candidates that survive are exactly the immediate postdominator; both size assertions hold when every block reaches the exit |
| `Postdominators.FunctionInfo.Transfer` | src/cuda-sim/ptx_ir.cc:626-631 | the new set is the intersection over the successors plus the block |
| `Postdominators.FunctionInfo.Sweep` | src/cuda-sim/ptx_ir.cc:624-636 | one pass over all blocks; no change means a fixpoint, a change means smaller sets |
| `Postdominators.FunctionInfo.FindPostdominators` | src/cuda-sim/ptx_ir.cc:609-638 | terminates, and the sets are the true postdominator sets |
| `Postdominators.FunctionInfo.PruneBy` | src/cuda-sim/ptx_ir.cc:656-666 | one candidate drops exactly those others that postdominate it |
| `Postdominators.FunctionInfo.PruneAll` | src/cuda-sim/ptx_ir.cc:652-668 | what is left of each block's candidates are the unbeaten ones |
| `Postdominators.FunctionInfo.FindImmediatePostdominators` | src/cuda-sim/ptx_ir.cc:640-681 | each block but the exit gets exactly its immediate postdominator, the exit none |
| `SimtStack.Stack.DivergentPaths` | src/abstract_hardware_model.cc:668-696 | the active lanes that are not done, grouped by next PC; nobody else |
| `SimtStack.Stack.TakePath` | src/abstract_hardware_model.cc:702-715 | the fall-through path if it is still to be handled, and otherwise the path with the least PC |
| `SimtStack.Stack.PlacePath` | src/abstract_hardware_model.cc:747-776 | where one group of lanes goes on the stack, with the same placeholder entries |
| `SimtStack.Stack.Return` | src/abstract_hardware_model.cc:729-741 | a return pops the call entry, resumes the caller and pops it too if it reconverges |
| `SimtStack.Stack.HandlePaths` | src/abstract_hardware_model.cc:701-777 | all groups are placed, and the loop leaves the stack the specification names plus one placeholder |
| `SimtStack.Stack.ResolvePaths` | src/abstract_hardware_model.cc:699-779 | after the placeholder is dropped the stack is the one specified, for calls, returns, branches and plain instructions |
| `SimtStack.Stack.Update` | src/abstract_hardware_model.cc:650-785 | the whole update equals the specified update, for every stack with at most two next PCs; after a divergent step the side that is not the fall-through, or without a fall-through the one with the larger PC, is on top with exactly its lanes, unless it is where the sides meet |
| `SimtStack.OrderListsPaths` | src/abstract_hardware_model.cc:705-715 | the order in which groups are handled lists each next PC exactly once |
| `SimtStack.OrderIsAscending` | src/abstract_hardware_model.cc:705-715 | the fall-through path comes before every other one, and these come by ascending PC |
| `SimtStack.LaterSideIsOnTop` | src/abstract_hardware_model.cc:699-779 | which side of a divergent step is on top of the stack afterwards, and which is below it |
| `SimtStack.StepWithoutSplit` | src/abstract_hardware_model.cc:717-779 | what becomes of the stack in a step that does not split the warp, by kind of instruction and of entry |
| `SimtStack.FinishedEntryIsPopped` | src/abstract_hardware_model.cc:690-693 | an entry whose lanes have all finished is popped |
| `SimtStack.Push` | src/abstract_hardware_model.cc:766-776 | an entry with its lanes at its PC, seated above an entry that waits at its reconvergence PC, keeps lockstep |
| `SimtStack.Uncover` | src/abstract_hardware_model.cc:744-747 | lanes that arrive at the reconvergence PC are held, at their own PC, by the entry below |
| `SimtStack.NewReconvergence` | src/abstract_hardware_model.cc:751-776 | a divergence with a new reconvergence PC keeps lockstep |
| `SimtStack.SameReconvergence` | src/abstract_hardware_model.cc:751-776 | a divergence that reconverges where its entry does keeps lockstep |
| `SimtStack.ReturnKeepsLockstep` | src/abstract_hardware_model.cc:729-742 | a return keeps lockstep |
| `SimtStack.NestedUpdateKeepsLockstep` | src/abstract_hardware_model.cc:650-785 | an update that nests loses no live lane, keeps every lane at its own PC and the entries seated for later steps |
| `SimtStack.UnmetSidesMisplaceALane` | src/abstract_hardware_model.cc:744-764 | a divergent step under an ordinary entry of which one side is already at the entry's reconvergence PC, while the branch reconverges elsewhere, leaves a live lane in an entry with another PC |
| `SimtStack.BreakMisplacesALane` | src/abstract_hardware_model.cc:744-764 | there is such a step in lockstep: a divergent instruction without a reconvergence PC, as a predicated BREAK is, one side of which goes to where the entry reconverges |
| `SimtStack.SplitCallTracksButIsUnseated` | src/abstract_hardware_model.cc:729-764 | a call entry split by a branch without reconvergence PC keeps its lanes at their own PCs, but no longer holds the same live lanes as its caller's entry |
| `SimtStack.UpdateTracksIffSidesMeet` | src/abstract_hardware_model.cc:650-785 | an update loses no live lane and keeps each in an entry with its own PC if and only if a divergent step under an ordinary entry, one side of which is at the entry's reconvergence PC, reconverges there too |
| `SimtStack.UpdateKeepsLockstepIffNested` | src/abstract_hardware_model.cc:650-785 | an update keeps the invariant of whole runs (every lane at its own PC, and entries seated for later steps) if and only if moreover a branch under a call entry has a reconvergence PC |
| `WarpRun.LaunchIsInLockstep` | src/abstract_hardware_model.cc:593-602 | a launched warp is in lockstep |
| `WarpRun.ExecutesOwnInstruction` | src/abstract_hardware_model.cc:807-823 | in lockstep each lane that executes executes the instruction it would execute alone |
| `WarpRun.StepStaysInLockstep` | src/abstract_hardware_model.cc:650-785 | one instruction of a warp keeps lockstep and every lane's log equal to its solo run so far |
| `WarpRun.RunStaysInLockstep` | src/abstract_hardware_model.cc:650-785 | over every run no live lane is lost, the topmost entry with a lane has that lane's PC, and each lane's executed PCs are those of its solo run |
| `WarpRun.StepDoesWork` | src/abstract_hardware_model.cc:650-785 | each step executes an instruction of some lane or shortens the stack |
| `WarpRun.RunCompletes` | src/abstract_hardware_model.cc:650-785 | if every lane alone terminates, the warp can be run until every lane has executed all of its instructions |
| `RegionRun.ConvergentStepsAreAllowed` | src/abstract_hardware_model.cc:807-823 | a warp over a control flow whose branch regions nest meets the stack's demands on every convergent step |
| `RegionRun.StepStaysStructured` | src/abstract_hardware_model.cc:650-785 | entries stay in the region up to their reconvergence PC and call entries match the lanes' return addresses |
| `RegionRun.LaunchIsStructured` | src/abstract_hardware_model.cc:593-602 | a launched warp is structured |
| `RegionRun.ConvergentRunsStayInLockstep` | src/abstract_hardware_model.cc:650-785 | runs with balanced calls over nesting regions stay in lockstep |
| `RegionRun.ConvergentRunsComplete` | src/abstract_hardware_model.cc:650-785 | and complete, executing exactly the lanes' solo runs |
| `Reconvergence.Analyse` | src/cuda-sim/ptx_ir.cc:609-681 | the analysis of a function's blocks fills in true postdominators and immediate postdominators |
| `Reconvergence.AnalysedBlocksNest` | src/cuda-sim/ptx_ir.cc:640-681 | from the computed immediate postdominators: regions of branches nest and are closed |
| `Reconvergence.GetReconvergencePairs` | src/cuda-sim/ptx_ir.cc:787-823 | one pair per block that ends in a branch: its last PC and the first PC of its immediate postdominator, or none when that is the exit |
| `Reconvergence.GetConvergePoint` | src/cuda-sim/cuda-sim.cc:2003-2025 | the target of the pair of a PC, or no divergence when it has none |
| `Reconvergence.ConvergePointInFunction` | src/cuda-sim/cuda-sim.cc:2003-2025 | looking a PC up in the pairs of its function gives its reconvergence PC |
| `Reconvergence.AnalysedProgramsAreValid` | src/cuda-sim/ptx_ir.cc:609-681 | programs made of analysed functions meet the conditions under which warps reconverge |
| `Reconvergence.RegionsAreClosed` | src/cuda-sim/ptx_ir.cc:787-823 | executing inside a region leads nowhere but inside it or to its end |
| `Reconvergence.BranchesOpenRegions` | src/cuda-sim/ptx_ir.cc:787-823 | both targets of a branch lie in its region or are its end |
| `Reconvergence.BranchRegionsNest` | src/cuda-sim/ptx_ir.cc:787-823 | a branch inside a region reconverges inside it or at its end |
| `Reconvergence.ProgramsNest` | src/cuda-sim/ptx_ir.cc:787-823 | the control flow of a valid program satisfies all that the stack needs |
| `Reconvergence.WarpsReconverge` | src/abstract_hardware_model.cc:650-823 | the composition: in a program whose functions have been analysed and laid out, every convergent run of a launched warp stays in lockstep and executes the lanes' solo runs |
| `Reconvergence.WarpsComplete` | src/abstract_hardware_model.cc:650-823 | and if every lane alone terminates, the warp of such a program completes within a known number of steps, having executed exactly the lanes' solo runs |
| `StackDepth.DivergedIsLaminar` | src/abstract_hardware_model.cc:750-777 | the masks on the stack stay a laminar family when an entry splits |
| `StackDepth.LaminarSize` | src/abstract_hardware_model.cc:650-785 | a laminar family of non-empty subsets of n lanes has at most 2n - 1 members |
| `StackDepth.StackIsBounded` | src/abstract_hardware_model.cc:650-785 | in every call-free run, whether its branches nest or not, the stack never has more than 2n - 1 entries for n launched lanes; all that is asked of a step is the assertion on the number of paths |
| `CacheTags.ProbeIsDetermined` | src/gpgpu-sim/gpu-cache.cc:158-220 | the specification of a lookup leaves exactly one answer |
| `CacheTags.TagArray.Probe` | src/gpgpu-sim/gpu-cache.cc:158-220 | hit, pending hit, victim or failure; the victim is the last invalid line or else the least recent unreserved one |
| `CacheTags.TagArray.Access` | src/gpgpu-sim/gpu-cache.cc:230-266 | the new lines, and a writeback exactly when a modified line is evicted; the line accessed has the time of the access as its time stamp, that of its allocation changes only on a miss, and no other line changes |
| `CacheTags.TagArray.Fill` | src/gpgpu-sim/gpu-cache.cc:278-282 | the line becomes valid |
| `CacheTags.TagArray.Flush` | src/gpgpu-sim/gpu-cache.cc:284-288 | all lines become invalid |
| `Replacement.StepKeepsStamps` | src/gpgpu-sim/gpu-cache.cc:230-288 | the time stamps of a line are those of the last use of its block and of the last miss on it; every access, fill and change of status keeps that |
| `Replacement.VictimIsLeastRecent` | src/gpgpu-sim/gpu-cache.cc:158-220 | over whole runs: a line in use is given up only when no line of the set is free, and then every other line that could be given up holds a block used no earlier, under LRU, or that last missed no earlier, under FIFO |
| `RingFifo.Fifo.Push` | src/gpgpu-sim/gpu-cache.h:1202-1209 | appends; returns the slot, which stays that element's slot |
| `RingFifo.Fifo.Pop` | src/gpgpu-sim/gpu-cache.h:1210-1216 | removes the oldest element and leaves the others in their slots |
| `RingFifo.Fifo.PeekAt` | src/gpgpu-sim/gpu-cache.h:1217-1226 | the element in a slot |
| `RingFifo.Fifo.UpdateAt` | src/gpgpu-sim/gpu-cache.h:1222-1226 | overwrites the element in a slot and nothing else |
| `TexCache.ReplayExtends` | src/gpgpu-sim/gpu-cache.cc:1128-1149 | tags changed at access time stay in agreement with the data array as it will be once all fragments before have been served |
| `TexCache.RobExtends` | src/gpgpu-sim/gpu-cache.cc:1136-1142 | the reorder buffer lists the missing fragments in their order |
| `TexCache.RobReady` | src/gpgpu-sim/gpu-cache.cc:1191-1206 | marking an entry ready, in whatever order blocks return, keeps the buffer in agreement with the fragments |
| `TexCache.Cache.Access` | src/gpgpu-sim/gpu-cache.cc:1120-1152 | fails exactly when a queue is full and then changes nothing; otherwise the tag assertions hold, and the answer is a miss or a reserved hit |
| `TexCache.Cache.AccessTags` | src/gpgpu-sim/gpu-cache.cc:1129-1141 | the tags never fail and never hold a reserved line |
| `TexCache.Cache.Reserve` | src/gpgpu-sim/gpu-cache.cc:1136-1139 | the miss gets its slot of the reorder buffer |
| `TexCache.Cache.Fill` | src/gpgpu-sim/gpu-cache.cc:1191-1206 | fills may come in any order: exactly the request's entry becomes ready, and the assertions hold |
| `TexCache.Cache.ServeFragment` | src/gpgpu-sim/gpu-cache.cc:1163-1188 | the assertions about hits and about the head of the reorder buffer never fail; the fragment finds its block in the data array |
| `TexCache.Cache.Cycle` | src/gpgpu-sim/gpu-cache.cc:1154-1189 | the next request leaves if the port has room; the oldest fragment is served whenever it can be, its request becomes the next result and its block is then in the data array; nothing else moves |
| `TexCache.Cache.NextAccess` | src/gpgpu-sim/gpu-cache.cc:1185-1186 | results come out exactly once, in the order of acceptance |
| `MissCache.MshrTable.Add` | src/gpgpu-sim/gpu-cache.cc:372-380 | the request joins the end of its block's entry; the table limits hold |
| `MissCache.MshrTable.MarkReady` | src/gpgpu-sim/gpu-cache.cc:383-390 | the block is queued for answering, and the size assertion holds |
| `MissCache.MshrTable.NextAccess` | src/gpgpu-sim/gpu-cache.cc:393-405 | the oldest waiting request of the first answered block; an entry is released with its last request |
| `MissCache.AnswerKeepsOrder` | src/gpgpu-sim/gpu-cache.cc:393-405 | answers keep each block's requests in order |
| `MissCache.AnswerKeepsTable` | src/gpgpu-sim/gpu-cache.cc:393-405 | answers keep the table consistent |
| `MissCache.SendKeepsReads` | src/gpgpu-sim/gpu-cache.cc:764-778 | a new read gets a reserved line with its tag |
| `MissCache.FillKeepsReads` | src/gpgpu-sim/gpu-cache.cc:703-722 | a fill ends exactly its own read |
| `MissCache.MissKeepsConsistency` | src/gpgpu-sim/gpu-cache.cc:751-779 | table keys are the disjoint union of blocks with one outstanding read and answered blocks, each read's line is reserved, no set holds a tag twice: kept by a miss |
| `MissCache.FillKeepsConsistency` | src/gpgpu-sim/gpu-cache.cc:703-722 | the same, kept by a fill |
| `MissCache.AnswerKeepsConsistency` | src/gpgpu-sim/gpu-cache.cc:393-405 | the same, kept by an answer |
| `MissCache.TouchKeepsConsistency` | src/gpgpu-sim/gpu-cache.cc:793-840 | the same, kept by a hit and by an eviction on a write |
| `MissCache.AccessKeepsConsistency` | src/gpgpu-sim/gpu-cache.cc:1025-1063 | the same, kept by every accepted access |
| `MissCache.DataCache.SendReadRequest` | src/gpgpu-sim/gpu-cache.cc:751-779 | merges, starts a read, or rejects and changes nothing |
| `MissCache.DataCache.WriteHit` | src/gpgpu-sim/gpu-cache.cc:793-840 | the line and the requests sent by the four write-hit policies |
| `MissCache.DataCache.WriteMissAllocate` | src/gpgpu-sim/gpu-cache.cc:846-905 | all or nothing: the final failure return cannot be reached once the write has been sent; what is queued is the write, a read unless it merges, and the write-back of the victim exactly if that was modified and writes do not go through |
| `MissCache.DataCache.WriteMissNoAllocate` | src/gpgpu-sim/gpu-cache.cc:908-923 | sends the write or rejects |
| `MissCache.DataCache.ReadHit` | src/gpgpu-sim/gpu-cache.cc:929-947 | touches the line, and marks it modified for an atomic |
| `MissCache.DataCache.ReadMiss` | src/gpgpu-sim/gpu-cache.cc:953-985 | all or nothing: the miss is taken, and what is queued is the read unless it merges and the write-back of the victim exactly if that was modified and writes do not go through |
| `MissCache.DataCache.ProcessTagProbe` | src/gpgpu-sim/gpu-cache.cc:1025-1063 | the handler of each case |
| `MissCache.DataCache.Access` | src/gpgpu-sim/gpu-cache.cc:1025-1063 | an access is rejected exactly in the listed cases and then changes nothing; otherwise lines, registers, reads and queue are exactly those after the hit, the miss taken or the write passed on, within the queue's size, and consistency is kept; write-backs are queued for exactly the modified line that the access replaces |
| `MissCache.DataCache.AccessReadOnly` | src/gpgpu-sim/gpu-cache.cc:989-1020 | the same for the read-only cache |
| `MissCache.DataCache.Cycle` | src/gpgpu-sim/gpu-cache.cc:688-700 | the oldest queued request leaves if the port has room |
| `MissCache.DataCache.Fill` | src/gpgpu-sim/gpu-cache.cc:703-722 | the read's line is filled and its block is answered; the assertions hold; the line becomes modified exactly if an atomic waits for the block |
| `MissCache.DataCache.NextAccess` | src/gpgpu-sim/gpu-cache.h:465-466 | accepted misses are returned exactly once, first in first out per block |
| `MissCache.DataCache.Flush` | src/gpgpu-sim/gpu-cache.cc:284-288 | all lines become invalid; consistency is kept if and only if no read is outstanding |
| `MissCache.SendsVictim` | src/gpgpu-sim/gpu-cache.cc:895-977 | of what an access sends, exactly the modified victim of a miss is a write-back, unless writes go through |
| `MissCache.AccessWritesBackVictim` | src/gpgpu-sim/gpu-cache.cc:846-985 | the queue is given a write-back exactly when an access replaces a modified line, for that line's block |
| `MissCache.RejectsIffTooLittleRoom` | src/gpgpu-sim/gpu-cache.cc:793-985 | an access is rejected exactly when there is no line, no register for a miss that allocates, or less room than what it sends in the worst case |
| `MissCache.WritesAreSentOrKept` | src/gpgpu-sim/gpu-cache.cc:793-923 | an accepted write is sent to memory or its line is modified, and is always sent under write-through and write-evict |
| `MissCache.AddKeepsAtomics` | src/gpgpu-sim/gpu-cache.cc:366-378 | a register's atomic flag is set exactly if an atomic waits in it, until it is being answered |
| `MissCache.AnswerKeepsAtomics` | src/gpgpu-sim/gpu-cache.cc:393-405 | and an answer keeps what the flag means |
| `DirtyLines.StepConserves` | src/gpgpu-sim/gpu-cache.cc:688-1063 | in every step what had to be written to memory and what becomes modified is what has to be written afterwards, is sent to be written back, or is lost in one of the two listed ways |
| `DirtyLines.NothingIsLost` | src/gpgpu-sim/gpu-cache.cc:688-1063 | over every run of a write-back cache each block has become modified exactly as often as it has been sent to be written back, is queued for that or is in a modified line; under the other policies what is missing are lines that a write evicts or that a miss replaces under write-through |
| `MissCache.RegistersAreAccountedFor` | src/gpgpu-sim/gpu-cache.cc:354-405 | a block has a table entry if and only if a read for it is outstanding or its answer is being given, and never both |
| `MissCache.DrainedCacheReturnedEverything` | src/gpgpu-sim/gpu-cache.cc:393-405 | with no entry left for a block, all its accepted misses have been returned, in order |
| `MissCache.ReservedLineHasReadIff` | src/gpgpu-sim/gpu-cache.cc:756-763 | the line an accepted miss reserves has an outstanding read if and only if its block is not just being answered |
| `MissCache.MissKeepsStranded` | src/gpgpu-sim/gpu-cache.cc:756-763 | over every run the lines reserved without a read are exactly those whose last accepted miss found its block being answered: kept by a miss |
| `MissCache.FillKeepsStranded` | src/gpgpu-sim/gpu-cache.cc:703-722 | the same, kept by a fill |
| `MissCache.ReservedLinesAwaitOneRead` | src/gpgpu-sim/gpu-cache.cc:703-779 | in every reachable state a line waits for a fill with exactly one read outstanding for it, unless it is stranded, and no line is as long as no accepted miss found its block being answered |
| `MissCache.StrandALine` | src/gpgpu-sim/gpu-cache.cc:756-763 | a run of accesses and fills of a one-line cache, of any policy and with room for merging, that ends with its line reserved and no read queued or outstanding |
| `DelayQueue.OperationKeepsOrder` | src/gpgpu-sim/delayqueue.h:70-161 | one operation moves items only from the input to the queue and from the queue to the output |
| `DelayQueue.ItemsComeOutInOrder` | src/gpgpu-sim/delayqueue.h:70-161 | for every sequence of pushes, pops and length changes: outputs, then what is queued, are what was queued, then the inputs, in order |
| `DelayQueue.ItemAdvances` | src/gpgpu-sim/delayqueue.h:70-161 | an item moves one slot per pop and is moved by nothing else, not by a change of length either |
| `DelayQueue.ItemIsDelayed` | src/gpgpu-sim/delayqueue.h:70-120 | an item that replaces the tail bubble of an L-long queue comes out with exactly the L-th following pop |
| `DelayQueue.StaysTight` | src/gpgpu-sim/delayqueue.h:70-161 | no operation leaves a queue shorter than its minimum, or longer without an item at its end |
| `DelayQueue.ItemTakesPlace` | src/gpgpu-sim/delayqueue.h:70-161 | an item pushed under a minimum length L takes the last place, which is the L-th exactly if no item before it is that far back |
| `DelayQueue.ItemLeavesAfterLatency` | src/gpgpu-sim/delayqueue.h:70-161 | so it comes out with the L-th following pop, or a later one if it has to wait for items before it, whatever is done in between |
| `DelayQueue.FifoPipeline.constructor` | src/gpgpu-sim/delayqueue.h:47-59 | the list holds as many bubbles as the minimum length |
| `DelayQueue.FifoPipeline.Push` | src/gpgpu-sim/delayqueue.h:70-86 | the linked list's slots change as the specification of a push says |
| `DelayQueue.FifoPipeline.Pop` | src/gpgpu-sim/delayqueue.h:88-118 | the first slot comes out, and a bubble goes in when the list gets too short |
| `DelayQueue.FifoPipeline.RemoveTail` | src/gpgpu-sim/delayqueue.h:142-158 | the search for the tail's predecessor ends, and the tail is unlinked |
| `DelayQueue.FifoPipeline.SetMinLength` | src/gpgpu-sim/delayqueue.h:127-161 | bubbles are added or tail bubbles dropped up to the new minimum |
| `DramTiming.GroupExists` | src/gpgpu-sim/gpu-sim.h:193-201 | every bank is assigned an existing bank group |
| `DramTiming.IssuingRestarts` | src/gpgpu-sim/dram.cc:268-378 | a command restarts exactly its own timers |
| `DramTiming.ReadyMeansRunOut` | src/gpgpu-sim/dram.cc:268-366 | a command that is issued finds all timers it waits for run out |
| `DramTiming.ReadyIsSpaced` | src/gpgpu-sim/dram.cc:268-366 | a command that is ready is far enough from every earlier command of the run |
| `DramTiming.StaysOnTime` | src/gpgpu-sim/dram.cc:400-416 | no counter is ever behind: it holds at least what is left of its time |
| `DramTiming.RowsStayLegal` | src/gpgpu-sim/dram.cc:268-378 | the row a bank is said to have open is the one its commands left open |
| `DramTiming.CycleKeepsTiming` | src/gpgpu-sim/dram.cc:258-416 | one cycle keeps all of this |
| `DramTiming.RunsAreTimingSafe` | src/gpgpu-sim/dram.cc:258-416 | in every run every pair of commands respects tRC, tRAS, tRP, tRRD, tRCD, tRCDWR, tCCD, tCCDL, tWTR, tRTW, tWTP and read-to-precharge, columns go to the open row, rows are opened and closed in turn |
| `DramTiming.RunningHasCause` | src/gpgpu-sim/dram.cc:268-416 | a counter that is running was restarted by a command, and no longer ago than it takes |
| `DramTiming.ReadyIffAllowed` | src/gpgpu-sim/dram.cc:268-416 | the counters are exact: in every run a command is ready if and only if the rows allow it and it is far enough from all earlier commands, so that none waits longer than it must |
| `FrFcfs.OldestIsOldest` | src/gpgpu-sim/dram_sched.cc:82-91 | the position found is that of the oldest request to the row |
| `FrFcfs.OldestIsFirstReady` | src/gpgpu-sim/dram_sched.cc:82-97 | the oldest request to the row if there is one, and otherwise the last of the queue, is what first-ready scheduling asks for |
| `FrFcfs.OldestIsLastOfBin` | src/gpgpu-sim/dram_sched.cc:96-103 | the back of a bin is the oldest request of its row |
| `FrFcfs.ErasingRemovesOldest` | src/gpgpu-sim/dram_sched.cc:104-110 | erasing it from the queue removes just that request |
| `FrFcfs.BinWithoutOldest` | src/gpgpu-sim/dram_sched.cc:104-110 | what is then left of its row in the queue is what is left of the bin |
| `FrFcfs.AddedToBins` | src/gpgpu-sim/dram_sched.cc:55-61 | bins stay the queue filtered by row, in order, when a request is added |
| `FrFcfs.TakenFromBins` | src/gpgpu-sim/dram_sched.cc:98-110 | and when one is taken |
| `FrFcfs.Scheduler.AddReq` | src/gpgpu-sim/dram_sched.cc:55-61 | the request becomes the newest of its bank; the pending count is the total queue length |
| `FrFcfs.Scheduler.Take` | src/gpgpu-sim/dram_sched.cc:98-117 | takes the oldest request of a bin and forgets the bin when it is empty |
| `FrFcfs.Scheduler.Schedule` | src/gpgpu-sim/dram_sched.cc:79-118 | if some request of the queue goes to the row being drained, or to the current row if none is, the one returned does and no older one does; otherwise it is the oldest of all; it is removed from the queue |
| `RequestFlow.AcceptKeepsFlow` | src/gpgpu-sim/dram.cc:168-174 | an accepted request is in one place |
| `RequestFlow.AdmitKeepsFlow` | src/gpgpu-sim/dram_sched.cc:132-147 | entering the scheduler keeps every request in one place |
| `RequestFlow.ScheduleKeepsFlow` | src/gpgpu-sim/dram_sched.cc:149-173 | being given to a bank keeps every request in one place |
| `RequestFlow.BurstKeepsFlow` | src/gpgpu-sim/dram.cc:268-299 | a burst sent: bytes sent minus bytes moved stay the burst size times the request's occurrences on the bus |
| `RequestFlow.MoveKeepsFlow` | src/gpgpu-sim/dram.cc:208-231 | a burst moved: the same, and a request is finished with its last burst |
| `RequestFlow.HistoryKeepsFlow` | src/gpgpu-sim/dram.cc:205-333 | after every history each request is in exactly one place |
| `RequestFlow.FinishedOnceAndForAll` | src/gpgpu-sim/dram.cc:205-333 | a request is finished at most once; then no queue, bank or data slot points at it, and its bytes were moved in no more bursts than needed |
| `RequestFlow.UnfinishedIsInside` | src/gpgpu-sim/dram.cc:205-333 | a request that is not finished is still in the channel |
| `Dram.SwitchToWriteFitsIff` | src/gpgpu-sim/dram.cc:308-312 | the data queue has room for the burst that switches to writing, whatever it holds, if and only if WL is at most CL |
| `Dram.TurnWrapsAround` | src/gpgpu-sim/dram.cc:263 | the bank considered at each turn is the one the modulus names |
| `Dram.OffersIffMayIssue` | src/gpgpu-sim/dram.cc:265-378 | a bank offers a command if and only if the one that its request needs next is far enough from all commands so far and, if it moves data, there is room; so it never stays idle for longer than it must |
| `Dram.FirstOfferIsIssued` | src/gpgpu-sim/dram.cc:258-384 | the command issued is that of the first bank in turn that can send one; if there is none, no bank can |
| `Dram.PassedOverIsNotFree` | src/gpgpu-sim/dram_sched.cc:149-173 | banks passed over are busy or have no request |
| `Dram.BurstIsDelayed` | src/gpgpu-sim/dram.cc:274-279 | a burst leaves the data queue after the latency of its transfer, or later exactly if a burst before it does |
| `Dram.CommandFollows` | src/gpgpu-sim/dram.cc:268-378 | a read enters the data queue at the read latency and a write at the write latency; a row command passes the turn on to the bank after its own; without a command neither changes |
| `Dram.OneTransfer` | src/gpgpu-sim/dram.cc:268-333 | the read or write issued is the one that the request in service calls for |
| `Dram.Controller.constructor` | src/gpgpu-sim/dram.cc:44-85 | counters zero, banks idle, the data queue CL bubbles long |
| `Dram.Controller.Push` | src/gpgpu-sim/dram.cc:168-174 | a new request waits at the end of the arrival queue, which must have room as that queue asserts |
| `Dram.Controller.PushUnlessFull` | src/gpgpu-sim/l2cache.cc:244-249 | under the guard of the memory partition a request always fits into the arrival queue: `full` looks at the scheduler and not at that queue, so this needs what the cycle before leaves there |
| `Dram.Controller.ReturnQueuePop` | src/gpgpu-sim/dram.cc:424-427 | the oldest reply is handed out, and counts as fetched |
| `Dram.Controller.MoveBurst` | src/gpgpu-sim/dram.cc:208-231 | one burst leaves the bus unless the return queue is full; a finished request is returned or deleted |
| `Dram.Controller.ScheduleFifo` | src/gpgpu-sim/dram.cc:189-199 | the oldest arrival goes to its bank if that is free |
| `Dram.Controller.AdmitArrivals` | src/gpgpu-sim/dram_sched.cc:128-147 | as many arrivals enter the scheduler as fit, in order |
| `Dram.Controller.SelectFor` | src/gpgpu-sim/dram_sched.cc:153-171 | the row being drained is always the open row: if some queued request goes to it, the free bank takes one that does and that no older one does, otherwise the oldest |
| `Dram.Controller.SelectFirst` | src/gpgpu-sim/dram_sched.cc:149-173 | the first free bank in turn that has a request takes one, and only that bank |
| `Dram.Controller.ScheduleFrFcfs` | src/gpgpu-sim/dram_sched.cc:128-173 | first as many arrivals as fit are admitted, then the first free bank in turn with a request takes its choice, and nothing else happens |
| `Dram.Controller.SwitchTo` | src/gpgpu-sim/dram.cc:274-277 | the minimum length follows the latency of the transfer |
| `Dram.Controller.SendBurst` | src/gpgpu-sim/dram.cc:278-299 | the burst enters the data queue; the bank lets go of a request whose bytes have all been sent |
| `Dram.Controller.IssueRead` | src/gpgpu-sim/dram.cc:268-299 | the read's effect on counters, data queue and request |
| `Dram.Controller.IssueWrite` | src/gpgpu-sim/dram.cc:302-333 | the write's effect |
| `Dram.Controller.OpenRowOf` | src/gpgpu-sim/dram.cc:337-357 | the activation's effect |
| `Dram.Controller.CloseRowOf` | src/gpgpu-sim/dram.cc:361-378 | the precharge's effect |
| `Dram.Controller.Decide` | src/gpgpu-sim/dram.cc:265-378 | the command a bank may send: an activation if no row is open, a precharge if another is, and otherwise a write or a read as the request says and there is room; it is sent exactly if its timers have run out |
| `Dram.Controller.IssueCommand` | src/gpgpu-sim/dram.cc:258-384 | exactly the first bank in turn that has a command ready sends it |
| `Dram.Controller.CountDown` | src/gpgpu-sim/dram.cc:400-416 | every counter is one lower or zero |
| `Dram.Controller.CommandCycle` | src/gpgpu-sim/dram.cc:258-416 | the command issued is logged, and the counters then are those after it and one cycle |
| `Dram.Controller.Cycle` | src/gpgpu-sim/dram.cc:205-416 | one cycle adds to the history exactly the burst that leaves if there is room for it, what the scheduler does, and the burst that is sent; it adds one slot to the command trace, holding the command of the first bank in turn, after the scheduler has fed one, whose request needs a command that earlier commands allow; a read enters the data queue at latency CL and a write at WL, row commands pass the turn on, and every invariant is kept |
| `Dram.Controller.CycleWithArrivals` | src/gpgpu-sim/dram.cc:110-117 | with at most one guarded push since the cycle before, a cycle leaves at most one arrival waiting under the first-ready scheduler, and room for one whenever the controller is not full |
| `Dram.Controller.DramCycle` | src/gpgpu-sim/l2cache.cc:196-249 | fetching a reply, one cycle and at most one push keep every invariant: over all cycles the assertion on the capacity of the arrival queue cannot fail |
| `Dram.RepliesAreFinished` | src/gpgpu-sim/dram.cc:218-224 | replies are the finished requests that are not writebacks |
| `Dram.ControllersAreSafe` | src/gpgpu-sim/dram.cc:205-416 | in every reachable state of the controller the trace is timing safe, a request has been answered at most once and only when all its bytes had been moved, and every finished request that wants an answer has one; the reads and writes issued are one for one those that the requests in service called for |
| `AddressDecoding.PackBits` | src/gpgpu-sim/addrdec.cc:427-438 | the selected bits packed together |
| `AddressDecoding.PackedFits` | src/gpgpu-sim/addrdec.cc:427-438 | the packed value has as many bits as are selected |
| `AddressDecoding.PackedDeterminesBits` | src/gpgpu-sim/addrdec.cc:427-438 | two packed values are equal if and only if all selected bits are |
| `AddressDecoding.PackedBit` | src/gpgpu-sim/addrdec.cc:427-438 | the selected bits are kept in order: each becomes the bit numbered by how many are selected below it |
| `AddressDecoding.GetMaskLimit` | src/gpgpu-sim/addrdec.cc:440-458 | the limits enclose the mask tightly |
| `AddressDecoding.LogB2` | src/gpgpu-sim/addrdec.cc:411-425 | the integer part of the binary logarithm |
| `AddressDecoding.AddressTranslation.Init` | src/gpgpu-sim/addrdec.cc:162-322 | the fields as initialisation must leave them: masks with the channel inserted, limits, gap and sub-partition mask |
| `AddressDecoding.AddressTranslation.WithChip` | src/gpgpu-sim/addrdec.cc:285-288 | the channel bits are added to the mask |
| `AddressDecoding.AddressTranslation.LowestBits` | src/gpgpu-sim/addrdec.cc:309-322 | the mask of the lowest bank bits |
| `AddressDecoding.AddressTranslation.AddrDecTlx` | src/gpgpu-sim/addrdec.cc:82-110 | the decoded fields, for power-of-two and other channel counts |
| `AddressDecoding.AddressTranslation.GetPartitionAddress` | src/gpgpu-sim/addrdec.cc:67-80 | the partition address |
| `AddressDecoding.ChannelAndRest` | src/gpgpu-sim/addrdec.cc:91-104 | remainder and stitched quotient determine the address |
| `AddressDecoding.PartsHoldTheirBits` | src/gpgpu-sim/addrdec.cc:82-110 | bank, row, column and burst, and the channel where a mask holds it, are the bits that their own masks select, in order |
| `AddressDecoding.ChannelIsDividedOut` | src/gpgpu-sim/addrdec.cc:90-98 | otherwise the channel is the remainder of the upper part of the address by the number of channels, and the rest is the quotient above the unchanged lower bits |
| `AddressDecoding.RestIsBelow` | src/gpgpu-sim/addrdec.cc:91-104 | the stitched rest lies in the range that the masks cover |
| `AddressDecoding.CoverIsKept` | src/gpgpu-sim/addrdec.cc:276-289 | inserting the channel bits keeps every address bit selected |
| `AddressDecoding.DecodingIsInjective` | src/gpgpu-sim/addrdec.cc:82-110 | for every channel count: if the configured masks cover the address, no two addresses have the same channel, bank, row and column |
| `CellAddresses.CellsHaveAddressesIff` | src/gpgpu-sim/addrdec.cc:82-110 | every channel, bank, row and column in range has an address of so many bits if and only if no bit is selected by two of the masks and none beyond those bits |
| `CellAddresses.DecodingIsBijectiveIff` | src/gpgpu-sim/addrdec.cc:82-110 | for every channel count: under masks that cover the address, decoding is a bijection between the addresses and the channels, banks, rows and columns in range if and only if no bit is selected twice and none beyond |
| `AddressDecoding.ChannelsExistIff` | src/gpgpu-sim/addrdec.cc:86 | the channel is in range for all addresses if and only if its mask has no more bits than the channel count needs |
| `AddressDecoding.ChannelExists` | src/gpgpu-sim/addrdec.cc:82-110 | the channel is in range whenever it is computed by remainder, or its bits are inserted by position and none are configured besides |
| `AddressDecoding.LowestOfPacked` | src/gpgpu-sim/addrdec.cc:309-322 | the low bits of the bank are the packed bits of the sub-partition mask |
| `AddressDecoding.SubPartitionDetermines` | src/gpgpu-sim/addrdec.cc:106-109 | the sub partition determines the channel and the low bank bits |
| `AddressDecoding.PartitioningIsInjective` | src/gpgpu-sim/addrdec.cc:67-110 | no two addresses share both sub partition and partition address |
| `AddressDecoding.PartitionAddressHolds` | src/gpgpu-sim/addrdec.cc:67-80 | the partition address has no bit that names the channel or the sub partition, and all other bits, in order |
| `Transactions.AlignedIsInChunk` | src/abstract_hardware_model.cc:390-404 | naturally aligned accesses do not cross a 32-byte chunk |
| `Transactions.TightestIsUnique` | src/abstract_hardware_model.cc:494-544 | there is only one tightest aligned block around the used chunks |
| `Transactions.Reduce` | src/abstract_hardware_model.cc:494-544 | the transaction sent is the tightest aligned block of 32, 64 or 128 bytes |
| `Transactions.IsCoveredIff` | src/abstract_hardware_model.cc:390-411 | merged with all accesses to its segment, an access of any size and alignment is covered if and only if the chunk of its last byte lies in the tightest block around the chunks that the accesses start in |
| `Transactions.AloneIsCoveredIff` | src/abstract_hardware_model.cc:390-404 | an access on its own is covered if and only if it does not cross a chunk: alignment is needed |
| `Transactions.MadeCovers` | src/abstract_hardware_model.cc:355-417 | the transaction of a segment covers every access to it |
| `Transactions.MadeIsJustUsed` | src/abstract_hardware_model.cc:355-417 | its lanes and bytes come from such accesses, and each half of it is used |
| `Transactions.AllMadeIsCoalesced` | src/abstract_hardware_model.cc:407-416 | the transactions of all segments cover all accesses and do not overlap |
| `Transactions.AllMadeIsOnePerSegment` | src/abstract_hardware_model.cc:407-416 | no two transactions lie in the same segment, and none leaves its segment |
| `Coalescing.WarpInstruction.CollectSubwarp` | src/abstract_hardware_model.cc:370-405 | the transactions found are the accesses of the active lanes merged by segment; the one-segment assertion holds |
| `Coalescing.WarpInstruction.ReduceAndSend` | src/abstract_hardware_model.cc:494-544 | the reduced transaction is queued |
| `Coalescing.WarpInstruction.SendSubwarp` | src/abstract_hardware_model.cc:407-416 | every access of the subwarp is covered, and nothing more than needed is sent |
| `Coalescing.WarpInstruction.MemoryCoalescing` | src/abstract_hardware_model.cc:355-417 | the same for every part of the warp, with at most one transaction for each segment, whose size is what 32 lanes access but at most 128 bytes |
| `Coalescing.WarpInstruction.TouchesAre` | src/abstract_hardware_model.cc:368-391 | what is coalesced are exactly the pieces of the active lanes' accesses |
| `Coalescing.WarpInstruction.LaneIsInItsPart` | src/abstract_hardware_model.cc:364-369 | the parts divide the warp: each lane is in one |
| `Coalescing.TestBytes` | src/abstract_hardware_model.h:886-891 | whether a byte in the range is marked |
| `Coalescing.FindFree` | src/abstract_hardware_model.cc:449-459 | the first transaction of the segment that does not conflict |
| `Coalescing.WithNewBytes` | src/abstract_hardware_model.cc:469-474 | the assertion that no byte is marked twice holds |
| `Coalescing.WithAtomic` | src/abstract_hardware_model.cc:442-475 | the access joins the first transaction that does not conflict, or a new one |
| `Coalescing.WarpInstruction.CollectAtomics` | src/abstract_hardware_model.cc:437-475 | the transactions of a half warp |
| `Coalescing.WarpInstruction.SendAtomics` | src/abstract_hardware_model.cc:477-490 | one reduced transaction per list element, in order |
| `Coalescing.WarpInstruction.MemoryCoalescingAtomic` | src/abstract_hardware_model.cc:419-492 | the same for both halves of the warp |
| `AtomicSlots.SlotsPartition` | src/abstract_hardware_model.cc:437-475 | the transactions of a segment partition the accesses to it |
| `AtomicSlots.SlotsAreDisjoint` | src/abstract_hardware_model.cc:449-475 | the accesses merged into one transaction have no common byte |
| `AtomicSlots.SuccessiveSlots` | src/abstract_hardware_model.cc:449-465 | the lane that comes after m others with its address goes into transaction m |
| `AtomicSlots.LaterSlotIff` | src/abstract_hardware_model.cc:449-465 | for accesses of any sizes: one that overlaps an earlier one of its segment goes into another transaction, and into a later one if and only if it overlaps every transaction before that of the earlier one too |
| `AtomicSlots.CoveringGoesLater` | src/abstract_hardware_model.cc:449-465 | for accesses of any sizes: one that covers the bytes of an earlier one goes into a later transaction |
| `AtomicSlots.OverlappingGoesEarlier` | src/abstract_hardware_model.cc:449-465 | of three accesses the third, overlapping only the second, which overlaps the first, joins the transaction before that of the second |
| `AtomicSlots.UnalignedGoesEarlier` | src/abstract_hardware_model.cc:449-465 | three unaligned accesses of 4 bytes are such a case: overlapping alone does not order transactions |
| `AtomicSlots.SlotsHoldByMultiplicity` | src/abstract_hardware_model.cc:449-465 | exactly the first m transactions hold an address accessed m times |
| `AtomicSlots.SlotsAreMaxMultiplicity` | src/abstract_hardware_model.cc:449-465 | a segment takes as many transactions as its most accessed address has accesses |
| `AtomicSlots.SentCovers` | src/abstract_hardware_model.cc:477-490 | every access is covered by a transaction with its lane and bytes, none larger than needed |
| `PagedMemory.MemStorage.Write` | src/cuda-sim/memory.h:68-72 | bytes are copied into the buffer at the offset |
| `PagedMemory.SplicedPage` | src/cuda-sim/memory.cc:50-54 | writing into one page overwrites those bytes of the flat memory and no other |
| `PagedMemory.PieceWritten` | src/cuda-sim/memory.cc:61-76 | one more piece written is the flat write continued, also around the end of the address space |
| `PagedMemory.PageEndIs` | src/cuda-sim/memory.cc:91-96 | the 32-bit end of a block is right except for the last one, where it is 0 |
| `PagedMemory.MemorySpace.WritePage` | src/cuda-sim/memory.cc:54 | a page is created zero-filled when first written |
| `PagedMemory.MemorySpace.WriteAcross` | src/cuda-sim/memory.cc:55-78 | the loop over pages terminates and writes all bytes |
| `PagedMemory.MemorySpace.Write` | src/cuda-sim/memory.cc:47-78 | memory refines a flat byte map: the write overwrites exactly its bytes, on both routes, and is logged |
| `PagedMemory.MemorySpace.ReadSingleBlock` | src/cuda-sim/memory.cc:89-108 | for any length: fails exactly when the access seems to leave the block; otherwise the bytes, or zeros for an absent page |
| `PagedMemory.MemorySpace.Read` | src/cuda-sim/memory.cc:110-140 | fails if and only if a non-empty access touches the last page; otherwise returns the flat bytes, on both routes, each of which is the one last written to its address, or zero |
| `PagedMemory.LastWriteWins` | src/cuda-sim/memory.cc:47-140 | the flat bytes are those last written, or zero: what every read returns |
| `CacpTags.PartitionsSplitTheSet` | src/gpgpu-sim/CACP.cc:233-243 | the two partitions split the set, the lower half for predicted critical accesses; both are non-empty from two ways on |
| `CacpTags.TrainingIsUndone` | src/gpgpu-sim/CACP.cc:313-346 | training goes by single steps within 0..3 and is undone by untraining; two steps up make a prediction |
| `CacpTags.AgingRaises` | src/gpgpu-sim/CACP.cc:261-265 | a round of aging brings every line a step closer to 3 |
| `CacpTags.ThreeRoundsSuffice` | src/gpgpu-sim/CACP.cc:247-269 | if some line is not reserved, three rounds make one replaceable |
| `CacpTags.TagArray.Age` | src/gpgpu-sim/CACP.cc:261-265 | all lines of the partition are aged |
| `CacpTags.TagArray.FindVictim` | src/gpgpu-sim/CACP.cc:245-284 | the loop that restarts its index terminates within three rounds, with the last replaceable line after the fewest rounds, or fails exactly when all lines are reserved |
| `CacpTags.TagArray.CacpHit` | src/gpgpu-sim/CACP.cc:313-330 | the line is marked reused, its signature's counter goes up, and the prediction counter of a critical access, all within 0..3 |
| `CacpTags.TagArray.CacpEviction` | src/gpgpu-sim/CACP.cc:331-346 | a line that only uncritical accesses reused in the critical partition lowers the prediction, one that nobody reused its signature's counter, within 0..3 |
| `CacpTags.TagArray.Probe` | src/gpgpu-sim/CACP.cc:198-304 | on a hit the line is marked reused and the counters are trained; on a miss the victim is a line that is not reserved, of the partition predicted by the signature's counter, whenever there is one, the counters are those after the aging rounds, the new signature and the eviction, and the line has the new signature; a failure changes nothing; all counters stay in 0..3 |
| `Streams.PushKeepsInv` | src/stream_manager.cc:69-75 | a push keeps the protocol's invariant |
| `Streams.FinishKeepsInv` | src/stream_manager.cc:222-237 | a finished kernel keeps it |
| `Streams.ServiceKeepsInv` | src/stream_manager.cc:243-244 | stream zero is serviced only once all concurrent streams are empty, hence idle |
| `Streams.BeginKeepsInv` | src/stream_manager.cc:245-270 | starting an operation keeps it |
| `Streams.NextKeepsInv` | src/stream_manager.cc:200-211 | every allowed event keeps it, and the assertion about the finished kernel holds |
| `Streams.InterleavingsAreSafe` | src/stream_manager.cc:200-272 | in every interleaving of host threads and simulator: the assertion holds, stream zero and a concurrent stream are never both busy, each stream completes in push order |
| `Streams.EmptyZeroIsLeft` | src/stream_manager.cc:243-256 | a round that finds stream zero empty leaves it |
| `Streams.RoundStartsFirstWaiting` | src/stream_manager.cc:256-270 | while stream zero is not serviced a round starts the first waiting concurrent stream in order of creation, and no other |
| `Streams.TwoRoundsStart` | src/stream_manager.cc:239-272 | stream zero does not hold the others up: when it is empty and a concurrent stream waits, then of any two rounds without a push one starts the first that waits; a kernel is put on the GPU if that can start one |
| `Streams.RoundStartsZero` | src/stream_manager.cc:239-255 | when all concurrent streams are empty a round starts stream zero |
| `Streams.StreamManager.AddStream` | src/stream_manager.cc:274-280 | the stream is appended |
| `Streams.StreamManager.DestroyStream` | src/stream_manager.cc:282-297 | a stream is removed if and only if it is empty; otherwise the call spins with the lock held and nothing changes |
| `Streams.StreamManager.MayPush` | src/stream_manager.cc:360-366 | the check before a push to stream zero: it goes on if and only if the concurrent streams are empty |
| `Streams.StreamManager.Push` | src/stream_manager.cc:356-374 | the operation is queued on its stream, or on stream zero if it has none or launches block |
| `Streams.StreamManager.MayReturn` | src/stream_manager.cc:378-389 | the check after a push to stream zero: it returns only when everything pushed on any stream has completed |
| `Streams.StreamManager.ConcurrentStreamsEmpty` | src/stream_manager.cc:299-312 | true if and only if no concurrent stream has an operation |
| `Streams.StreamManager.RecordNextDone` | src/stream_manager.cc:77-85 | the first operation is removed |
| `Streams.StreamManager.StartNext` | src/stream_manager.cc:88-96 | the first operation becomes pending |
| `Streams.StreamManager.RegisterFinishedKernel` | src/stream_manager.cc:222-237 | the kernel's stream moves on |
| `Streams.StreamManager.Front` | src/stream_manager.cc:239-272 | the stream chosen and what is started; stream zero is not serviced any longer when it is empty |
| `Streams.StreamManager.DoOperation` | src/stream_manager.cc:114-175 | copies and events are done at once, kernels are launched if the GPU can start one |
| `Streams.StreamManager.Operation` | src/stream_manager.cc:200-211 | one simulator round is exactly the specified step, and leaves an empty stream zero |

## Left out

- Reconvergence.WarpsReconverge: excludes, through its convergence condition, warps that split at a branch whose immediate postdominator is the exit block (reconvergence at the return PC, which `core_t::updateSIMTStack` replaces at run time by the return address on the call stack of a lane), and predicated calls and predicated returns inside a call, where the code pops or pushes a call entry for some lanes only.
- Reconvergence.WarpsComplete: the same exclusions.
- Reconvergence.GetReconvergencePairs: a block that ends in a BREAK gets no pair, as in the code; valid programs choose between blocks only by branches.
- RegionRun.ConvergentRunsStayInLockstep: lanes are given by their solo runs, so that values passed between lanes through memory are part of those runs; what instructions compute is not modelled.
- Postdominators.FunctionInfo: the dominator analysis is left out; it mirrors the postdominator analysis and is not used for reconvergence. The construction of blocks is left out; the block graph is given.
- SimtStack.Stack.Update: call depth and divergence cycle of an entry are only reported and are left out.
- MissCache.DataCache.Access: allocation on fill, port bandwidths, the events list, data sizes and statistics are left out; the set index is any function into the sets; access times are below the largest 32-bit number, where `tag_array::probe` aborts.
- TexCache.Cache.Access: the fragment, request and result queues are sequences with their capacities; only the reorder buffer, whose slots matter, is the ring buffer object. Aliasing between these queues is not captured.
- CacpTags.TagArray.Probe: set index and tag of an address are parameters, as is the content of the lines; that the line found is the one the tag array then allocates is not claimed, because the tag array looks again with its own policy. Which signature an eviction trains is as in the code.
- DelayQueue.FifoPipeline.Push: the element count is left out; the code counts bubbles inconsistently, and nothing but printing uses it.
- Dram.Controller.DramCycle: the choice of the arriving request among the sub partitions, the credits and the latency queue before the controller are left out; the request is given.
- Dram.Controller.Cycle: the data queue is held as the value that the delay queue's operations are proved to compute; the arrival and return queues, which have no minimum length, are sequences; the fields of banks and bank groups are one record updated as a whole. Aliasing between queue objects is therefore not captured. Statistics, power counters and request status are left out; a bank's turn is counted around the number of banks, which is the modulus of the code. After a command has been issued the loop over banks only counts idle cycles, so the model leaves it there.
- FrFcfs.Scheduler.Schedule: list iterators in the bins are the requests they point at, and the pointer to the bin being drained is the row of that bin.
- DramTiming.RunsAreTimingSafe: bank groups are those the controller computes from its tag length, which has one bit more than the banks of a group need, so that it treats two neighbouring groups as one.
- AddressDecoding.AddressTranslation.Init: parsing of the mapping option and the table of preset masks are left out; masks and channel position are given. Fields are at most 32 bits wide, a channel position used with a remainder is at most 30, and sub partitions number at most 2^32 in all, as the code's integer types demand.
- Coalescing.WarpInstruction.MemoryCoalescing: shared, constant and texture accesses are left out, as are access types; addresses end below 2^32, and data sizes are those the code has a segment size for. Active lanes and addresses do not change while accesses are coalesced.
- PagedMemory.MemorySpace.Write: watchpoints and printing are left out; an access plus one page is no longer than the address space, so that the 32-bit offset arithmetic of the loop does not wrap.
- Streams.StreamManager.Push: a host thread repeats the checks `MayPush` and `MayReturn` around a push to stream zero; repeating them changes nothing and is left out, so every interleaving is covered. The check before returning reads the queues without the lock in the code and is one step here. Whether a waiting thread ever goes on is not claimed, nor is that a kernel is ever launched when the GPU cannot start one.
- Streams.StreamManager.DestroyStream: the endless spinning on a stream that is not empty, with the lock held, is a result here.
- Parsing, option handling, statistics, printing, power, the interconnect, the shader core and instruction semantics.
