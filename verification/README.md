# A verified model of the memory-system simulators

This project models the state-changing core of the repository in Dafny and proves what it is for: a DRAM
timing engine, a KV-page allocator with its migrator and scheduler, address mapping with row swapping, a CXL
switch with its event loop and two trace splitters, and an integer softmax. `dafny verify dfyconfig.toml`
checks everything.

## The parts

**DRAM timing engine** (`Dram*.dfy`, `Ddr4*.dfy`, `Ddr5*.dfy`). A tree of node objects keeps, per command, a
ready clock and a bounded history. `DramTiming` gives the declarative rule over the whole command trace and
proves that the incremental cell of one node refines it. `DramNode` is the tree of objects whose recursive
methods take every node through that step. `DramDevice` is the device with clock and queue of delayed
completions. `DramRun` describes whole runs as functions of the event log, and `DramSafety` holds what every
run keeps; `DramBanks` says what commands do to banks and which rows are open after a run. The constraint
table is a parameter; `Ddr4` and `Ddr5` instantiate it with the lines of the source, grouped by level (the
timings follow JESD79-4C, Tables 169 and 170, and its DDR5 counterpart). `DramSpacing` reads a table line by
line, and `Ddr4Spacing` and `Ddr5Spacing` state in commands and named timings when a command is ready and what
distances every guarded run keeps. Prerequisite commands are not modelled: every command may be asked for at
any time, and the safety statements speak of runs in which each issue passed the readiness check.

**KV pages** (`PageTable.dfy`, `Compaction.dfy`, `Migrator.dfy`, `Balancer.dfy`, `SchedulerRun.dfy`,
`SchedulerLaws.dfy`, `Scheduler.dfy`). The allocator with bump pointer, free lists and reverse index; migration
rounds; compaction; placement; and the driver loop over a trace. `SchedulerRun` is the scheduler as a state
machine, with what every run over a trace keeps; `Scheduler` is the object whose methods take exactly its
steps. Utilisations are exact fractions.

**Address mapping** (`Arithmetic.dfy`, `Fields.dfy`, `Mappers.dfy`, `Layout.dfy`, `Rit.dfy`, `RowSwap.dfy`,
`HotRows.dfy`, `SwapPlugin.dfy`, `Placement.dfy`). Three mappers as loops over levels with their inverses and
the places they give to the bits of an address, the row indirection table, the row-swap plugin that drives it,
with its tracker of hot rows and its decisions, and the composition of mapper and table over whole histories of
swaps.

**CXL fabric** (`Bandwidth.dfy`, `CxlSwitch.dfy`, `CxlFabric.dfy`, `FabricLaws.dfy`, `Trace.dfy`,
`Splitting.dfy`, `TraceSplit.dfy`). The busy-until ports, the event loop over a queue that grows while it is
drained, injected attention traffic, what the statistics of a run add up to, and the two implementations of
trace splitting with the exact condition for their agreement.

**Integer softmax** (`Inlu.dfy`, `ExpLaw.dfy`). Range reduction, the quadratic, shifts and rounded
normalisation over unbounded integers, and how nearly the integer exponential turns sums into products.

## Where the code falls short of its purpose

Each of these is kept in the model as the code has it, with the exact condition proved.

- DDR4 has no constraint from REFab to REFab, so two completions can be pending on one rank
  (`Ddr4.RefreshNotExclusive`); over a whole run there is at most one exactly when refreshes of a
  rank keep nRFC - 1 cycles apart (`Ddr4.AlwaysExclusiveIff`).
- A refresh latency of 1 is missed by the equality test of the tick (`DramRun.NeverHandled`,
  `DramRun.QueueInFutureIff`).
- Defragmentation leaves free list and bump pointer stale; the allocator stays in order only if there was
  nothing to compact (`Compaction.CompactedOkIff`, `Compaction.FreeAboveIff`, `Compaction.CompactedCollides`), and
  fails after two allocations and one free (`Compaction.CompactionFails`).
- A second trace drops the page lists of the requests it meets, whose pages stay allocated
  (`SchedulerRun.ResetList`, `SchedulerRun.RunCompleteIff`, `SchedulerRun.SecondTraceDrops`).
- Asking for the lock of an absent row corrupts the row table (`Rit.TouchKeepsIff`); an odd capacity lets a
  checked insertion overflow (`Rit.CheckSufficesIff`).
- Re-pairing a locked pair draws two rows independently: if they are equal the table is no longer an
  involution, and in any case the contents of the two new rows end the other way round
  (`RowSwap.DecisionInvolutionIff`, `RowSwap.DoubleDrawBreaks`, `RowSwap.RepairedTracksOthers`). Redirection
  is one-to-one exactly as long as this does not happen (`RowSwap.OneToOneThroughoutIff`); where it does, for a
  pair of rows of the bank, mapper and table place two addresses at the same spot
  (`Placement.DoubleDrawCollidesIff`, `Placement.ApartThroughoutIff`).
- The draws include the number of rows itself, which is no row, and a row can be sent there
  (`RowSwap.TopDrawPickable`, `RowSwap.BelowThroughoutIff`, `RowSwap.TopDrawMisplaced`).
- The row-swap plugin of every channel sets up the one mapper, and the bank number leaves the channel out, so
  channels share row tables: with two or more, contents are found everywhere exactly as long as nothing is
  swapped (`RowSwap.TrackedThroughoutIff`, `RowSwap.SecondChannelMisled`). Whether the placement is one-to-one
  does not depend on the number of channels.
- The hot-row tracker misses no row only below (entries + 1) * threshold activations of a bank in an epoch
  (`HotRows.GuaranteeIff`).
- The busy clock of a switch port already holds the base latency of the packets before, so a packet that finds
  its port busy pays the base latency a second time (`CxlSwitch.IdleOrBusy`, `CxlSwitch.BurstArrivals`).
- The two splitters disagree on traces without the prefix-sharing layout that use the low shared range
  (`Splitting.SplittersAgreeIff`, `Splitting.SplittersDisagree`).
- The integer exponential steps down by one unit in the last place just past each non-negative multiple of
  ln 2 (`Inlu.ExpMonotoneIff`); the softmax only uses arguments up to 0.

Where comments and code differ, the model follows the code. The header of the iNLU script puts the reduced
argument in [-ln 2, 0]; the code never reaches -ln 2 (`Inlu.ReducedRange`). The DDR4 comment speaks of a
future action after nRFC cycles; it is queued for, and completed at, nRFC - 1.

## Model

| member | source | states |
|---|---|---|
| `DramSpec.PopulateTimingCons` | ramulator2/src/dram/spec.h:85-98 | the table holds, for every level and preceding command, exactly the entries that some initializer line generates, and no others |
| `DramTiming.RelaxIsMax` | ramulator2/src/dram/node.h:162-177 | relaxing by a list of entries leaves, for each command, the larger of the old ready clock and every applicable entry's clock |
| `DramTiming.StepRefines` | ramulator2/src/dram/node.h:134-188 | one more issue takes a cell that stands for a history to one that stands for the longer history: each deque holds exactly the last `window` issue clocks of its command |
| `DramTiming.StepReadyClock` | ramulator2/src/dram/node.h:134-188 | the ready clock stays the maximum, over the level's entries, of the latency plus the clock of the window-th last targeting issue or of the last sibling issue, and -1 if there is none |
| `DramTiming.ReplayRefines` | ramulator2/src/dram/node.h:134-188 | so after any issued sequence in time order the incremental cell and the declarative rule over the whole trace agree |
| `DramTiming.NodeReadyIffAllows` | ramulator2/src/dram/node.h:209-213 | a node accepts a command at a clock if and only if no entry of the table forbids it, given the whole trace |
| `DramTiming.TargetSpacing` | ramulator2/src/dram/node.h:162-177 | a command the rule allows keeps the latency of every entry from each earlier command that has at least `window` targets after it, itself included |
| `DramTiming.SiblingSpacing` | ramulator2/src/dram/node.h:138-151 | the same for sibling entries, from every earlier hit of a sibling |
| `DramNode.Node.constructor` | ramulator2/src/dram/node.h:54-89 | builds the tree of the organisation with every ready clock and every history entry at -1 |
| `DramNode.Node.RelaxEntries` | ramulator2/src/dram/node.h:162-177 | the loop over the entries of a command computes the relaxation function, for siblings or for targets |
| `DramNode.Node.UpdateTiming` | ramulator2/src/dram/node.h:134-188 | every node of the subtree takes exactly the step its own path calls for: as target, sibling, or not at all |
| `DramNode.Node.CheckReady` | ramulator2/src/dram/node.h:209-232 | true exactly when every addressed node from here down to the scope of the command agrees, wildcards included |
| `DramNode.Node.UpdateStates` | ramulator2/src/dram/node.h:91-109 | every bank takes exactly the actions met on its path down to the scope of the command, and other banks keep their state |
| `DramNode.Node.ActOnBanks` | ramulator2/src/dram/lambdas/action.h:41-70 | same-bank actions change exactly the banks of the group with the given number |
| `DramNode.Node.ActOnBankGroups` | ramulator2/src/dram/lambdas/action.h:73-111 | all-bank actions change all banks below the rank; the end of an all-bank refresh does not clear the rows |
| `DramRun.QueueIsOutstanding` | ramulator2/src/dram/impl/DDR4.cpp:183-243 | after any run the queue is exactly the requests of the trace whose completion clock has not been reached since their issue |
| `DramRun.HandledOnce` | ramulator2/src/dram/impl/DDR4.cpp:183-243 | requests are conserved: as multisets, requested actions are those still queued plus those handled, each handled once |
| `DramRun.HandledOnTime` | ramulator2/src/dram/impl/DDR4.cpp:183-194 | every action is handled exactly when the clock equals issue clock plus latency minus one |
| `DramRun.QueueInFutureIff` | ramulator2/src/dram/impl/DDR4.cpp:220-230 | the queue lies strictly in the future exactly when no refresh of the trace has a latency below 2 |
| `DramRun.NeverHandled` | ramulator2/src/dram/impl/DDR4.cpp:187-193 | a refresh with latency 1 stays in the queue after its clock has passed and is never completed |
| `DramRun.RefreshStart` | ramulator2/src/dram/lambdas/action.h:95-102 | a refresh command sets exactly the covered banks to Refreshing |
| `DramRun.RefreshEnd` | ramulator2/src/dram/lambdas/action.h:61-111 | its completion closes exactly the covered banks; an all-bank completion keeps the row records, a same-bank one clears them |
| `DramSafety.RunSpacing` | ramulator2/src/dram/node.h:134-232 | in every run whose issues all pass the readiness check, no entry of the table is violated between any two commands that meet at a node |
| `DramSafety.WindowSpan` | ramulator2/src/dram/node.h:156-177 | in such a run, window + 1 targets of one node span at least the latency of a windowed entry |
| `DramSpacing.ReadyIffRows` | ramulator2/src/dram/node.h:209-232 | a command is ready exactly when it obeys every line of the initializer list: each earlier command that shares a node, or a channel but no rank for sibling lines, is the line's latency ago, and so is the first of any `window` of them |
| `DramBanks.OpenRows` | ramulator2/src/dram/lambdas/action.h:16-27 | over runs without refresh a bank is open exactly when an activation of it has been followed by no closing command that reached it, and its open rows are the rows of those activations |
| `DramSafety.RefreshingHasPending` | ramulator2/src/dram/impl/DDR5.cpp:198-292 | in every run a Refreshing bank is covered by a queued completion |
| `DramSafety.NoActivateWhileRefreshing` | ramulator2/src/dram/impl/DDR5.cpp:198-302 | and no activation is ready on it |
| `DramSafety.RefreshExclusive` | ramulator2/src/dram/impl/DDR5.cpp:225-259 | in every guarded run with the entries between refreshes in place, at most one queued completion covers any bank |
| `DramDevice.Device.constructor` | ramulator2/src/dram/impl/DDR4.cpp:196-208 | a new device has clock 0, an empty queue, and nodes that stand for the empty trace |
| `DramDevice.Device.IssueCommand` | ramulator2/src/dram/impl/DDR4.cpp:210-230 | issuing steps the timing and the states of the addressed channel and pushes the completion the command needs |
| `DramDevice.Device.Tick` | ramulator2/src/dram/impl/DDR4.cpp:183-194 | a tick advances the clock, completes exactly the due actions in the order of the backward scan, and keeps the rest |
| `DramDevice.Device.CheckReady` | ramulator2/src/dram/impl/DDR5.cpp:299-302 | the answer is the declarative rule over the whole trace, at every addressed node down to the scope |
| `DramExecution.Run` | ramulator2/src/dram/impl/DDR5.cpp:198-302 | driving a device through any events leaves it in the state that the functions of the log give; the log is the events themselves, or with the guard on the events without exactly the commands that were not ready at their turn, and is then a guarded run |
| `DramExecution.AcceptedKeepsTime` | ramulator2/src/dram/impl/DDR5.cpp:198-302 | dropping commands that are not ready loses no tick |
| `DramExecution.AcceptedAllIff` | ramulator2/src/dram/impl/DDR5.cpp:299-302 | nothing is dropped exactly when the events as they stand obey the rule |
| `Ddr4.CreateSpec` | ramulator2/src/dram/impl/DDR4.cpp:439-509 | the DDR4 table, scopes, actions and refresh latency (JESD79-4C) satisfy the conditions of the engine |
| `Ddr4.CommandEffect` | ramulator2/src/dram/lambdas/action.h:16-111 | ACT leaves exactly the banks it addresses Opened with its row open besides those open before; PRE, RDA and WRA leave the banks they address, PREA the rank, Closed with no open row; REFab and its end cover the rank; every other command and bank stays as it was |
| `Ddr4.AfterCommand` | ramulator2/src/dram/impl/DDR4.cpp:496-509 | after any run |
| `Ddr4.OpenRowsOf` | ramulator2/src/dram/impl/DDR4.cpp:496-509 | in runs without REFab a bank is Opened exactly when some ACT of it has been followed by no PRE, RDA or WRA of the bank and no PREA of its rank; its open rows are the rows of those ACTs |
| `Ddr4Spacing.ReadyIff` | ramulator2/src/dram/impl/DDR4.cpp:439-492 | a command is ready exactly when every earlier one keeps the named distances at the level where the two addresses meet - nRC, nRCD, nRAS, nRP, nRTP and write recovery at a bank, nCCDL, nRRDL and write-to-read in a group, nCCDS, nRRDS, turnaround, precharge and refresh in a rank, the rank switch between ranks, nBL on the channel - and for ACT the four-activate window |
| `Ddr4Spacing.RunApart` | ramulator2/src/dram/impl/DDR4.cpp:439-492 | any two commands of a guarded run keep them |
| `Ddr4.FourActivateWindow` | ramulator2/src/dram/impl/DDR4.cpp:463 | any five activations of one rank in a guarded run span at least nFAW cycles |
| `Ddr4.RefreshSafety` | ramulator2/src/dram/impl/DDR4.cpp:220-243 | a Refreshing bank has a REFab completion queued on its rank, strictly in the future, and ACT is not ready on it |
| `Ddr4.RefreshNotExclusive` | ramulator2/src/dram/impl/DDR4.cpp:467-471 | the table has no entry from REFab to REFab, so a guarded run can queue two completions for one bank |
| `Ddr4.OverlapShares` | ramulator2/src/dram/impl/DDR4.cpp:467-471 | two REFab completions cover a common bank exactly when they name the same channel and rank |
| `Ddr4.ExclusiveIffSpaced` | ramulator2/src/dram/impl/DDR4.cpp:467-471 | exclusivity survives a further REFab exactly when no REFab to the same channel and rank was issued less than nRFC - 1 cycles ago |
| `Ddr4.AlwaysExclusiveIff` | ramulator2/src/dram/impl/DDR4.cpp:467-471 | over a whole run, at most one completion covers any bank at every point exactly when any two REFab to one rank are at least nRFC - 1 cycles apart |
| `Ddr5.CreateSpec` | ramulator2/src/dram/impl/DDR5.cpp:516-615 | the DDR5 table, scopes and actions satisfy the conditions of the engine |
| `Ddr5.CommandEffect` | ramulator2/src/dram/lambdas/action.h:16-111 | the effects of ACT, PRE, RDA, WRA and PREA as for DDR4; PREsb leaves the banks of its number in the groups it addresses Closed with no open row; refresh, RFM and directed RFM and their ends cover the rank or those banks, and the end of a same-bank one clears the rows |
| `Ddr5.AfterCommand` | ramulator2/src/dram/impl/DDR5.cpp:587-615 | after any run |
| `Ddr5.OpenRowsOf` | ramulator2/src/dram/impl/DDR5.cpp:587-615 | in runs without refresh and RFM a bank is Opened exactly when some ACT of it has been followed by no PRE, RDA or WRA of the bank, no PREsb of its number and no PREA of its rank; its open rows are the rows of those ACTs |
| `Ddr5Spacing.ReadyIff` | ramulator2/src/dram/impl/DDR5.cpp:516-582 | the same exact condition with the DDR5 timings: the two-cycle commands and nBL on the channel, nCCDS and nCCDL by direction, nRC, nRCD, nRAS, nRP, nRTP, write recovery and write-to-read-with-precharge at a bank, the holds of each refresh, RFM and directed RFM, the rank switch, the four-activate window |
| `Ddr5Spacing.RunApart` | ramulator2/src/dram/impl/DDR5.cpp:516-582 | any two commands of a guarded run keep them |
| `Ddr5.FourActivateWindow` | ramulator2/src/dram/impl/DDR5.cpp:516-582 | any five activations of one rank in a guarded run span at least nFAW cycles |
| `Ddr5.RefreshSafety` | ramulator2/src/dram/impl/DDR5.cpp:198-302 | in every guarded run at most one refresh, RFM or DRFM completion covers any bank, and a Refreshing bank has one |
| `Ddr5.NoActivateOnCovered` | ramulator2/src/dram/impl/DDR5.cpp:516-582 | ACT is not ready on any bank covered by a queued completion |
| `Ddr5.SameBankCoversColumn` | ramulator2/src/dram/impl/DDR5.cpp:587-615 | a same-bank command covers exactly the banks of its number in every bank group of the rank |
| `PageTable.Accounted` | scripts/host_os_scheduler.py:285-295 | live and free ids of a node together are exactly 0 .. next - 1, and none is both |
| `PageTable.FullIff` | scripts/host_os_scheduler.py:285-292 | a node has no id left exactly when it holds its capacity of live pages |
| `PageTable.GlobalKVPageTable.constructor` | scripts/host_os_scheduler.py:147-170 | an empty table is in order |
| `PageTable.GlobalKVPageTable.AllocPhysical` | scripts/host_os_scheduler.py:285-292 | the most recently freed id, else the next fresh one, else none |
| `PageTable.GlobalKVPageTable.AllocatePage` | scripts/host_os_scheduler.py:172-202 | allocation fails exactly when the node is full and then changes nothing; otherwise it enters one new page under the most recently freed or the next fresh id and keeps the accounts of every node |
| `PageTable.GlobalKVPageTable.FreePage` | scripts/host_os_scheduler.py:204-221 | a shared page only loses a reference until the last; a freed page leaves table and index, and its id becomes free |
| `PageTable.GlobalKVPageTable.Lookup` | scripts/host_os_scheduler.py:223-229 | the node and physical id of a live page, or nothing |
| `PageTable.GlobalKVPageTable.RecordAccess` | scripts/host_os_scheduler.py:231-238 | counts the access on that page alone, and a shared hit exactly if the page is shared |
| `PageTable.GlobalKVPageTable.MigratePage` | scripts/host_os_scheduler.py:240-263 | a page moves exactly when it exists, lives elsewhere, and the destination has room; nothing else changes |
| `PageTable.EnterThenRemove` | scripts/host_os_scheduler.py:172-221 | allocating a page and freeing it gives back table, index and free ids; if the id was fresh it is then the one free id of the node |
| `PageTable.RemovedFields` | scripts/host_os_scheduler.py:204-221 | the id of a freed page is the next one its node hands out, and no other free list changes |
| `PageTable.MovedFields` | scripts/host_os_scheduler.py:240-263 | a moved page keeps its record but for node, id and state, takes its id like a new page, and its old id becomes the next one of its old node |
| `PageTable.TouchedFields` | scripts/host_os_scheduler.py:231-238 | an access changes the count and the time of its page and nothing else |
| `Migrator.StepFair` | scripts/host_os_scheduler.py:475-504 | moving to the least filled of the underloaded nodes keeps every destination within one page of all of them |
| `Migrator.StepUtils` | scripts/host_os_scheduler.py:502-504 | the running utilisations stay those of the real page counts |
| `Migrator.OverloadedByPages` | scripts/host_os_scheduler.py:441-456 | a node is overloaded exactly when it holds more than its share of all live pages by half the threshold of its capacity, and underloaded when it holds that much less |
| `Migrator.TriggeredByPages` | scripts/host_os_scheduler.py:449-459 | a round is called for exactly when two nodes differ by the threshold of the capacity in pages and there are overloaded and underloaded nodes |
| `Migrator.DynamicMigrator.MovePage` | scripts/host_os_scheduler.py:481-504 | a move is logged exactly when it is made, and utilisations follow the page counts |
| `Migrator.DynamicMigrator.Drain` | scripts/host_os_scheduler.py:463-504 | a source gives its private pages coldest first; if it stops before the batch is used up it has none left, or every underloaded node is full |
| `Migrator.DynamicMigrator.CheckAndMigrate` | scripts/host_os_scheduler.py:434-506 | nothing happens unless called for; at most a batch of private pages moves from overloaded to underloaded nodes; replaying the log entries over the old places gives the new ones; sources give their coldest pages; destinations end within one page of every underloaded node; a short round has exhausted sources or destinations |
| `Migrator.DynamicMigrator.Defragment` | scripts/host_os_scheduler.py:508-526 | after k turns of the loop exactly the k lowest pages are at their ranks, and no two live pages share an id at any of these points; the result is the number of pages whose id changed |
| `Compaction.CompactedOnto` | scripts/host_os_scheduler.py:508-526 | the pages of the node end exactly on 0 .. k - 1 in the order they had |
| `Compaction.CompactedOthers` | scripts/host_os_scheduler.py:508-526 | other nodes and the reverse index keep their accounts |
| `Compaction.PartlyInjective` | scripts/host_os_scheduler.py:519-524 | half-way through the loop no two live pages share a physical id |
| `Compaction.CompactedOkIff` | scripts/host_os_scheduler.py:508-526 | as free list and bump pointer are left stale, the accounts survive exactly when no freed id lies below the number of live pages |
| `Compaction.FreeAboveIff` | scripts/host_os_scheduler.py:508-526 | which is the case only when there was nothing to compact |
| `Compaction.CompactedCollides` | scripts/host_os_scheduler.py:508-526 | otherwise a freed id is in use afterwards and waits to be handed out again |
| `Compaction.CompactionFails` | scripts/host_os_scheduler.py:508-526 | it fails for the books after two allocations on one node and freeing the first page |
| `Compaction.AfterFreeReached` | scripts/host_os_scheduler.py:172-221 | the allocator reaches these books from an empty node |
| `Compaction.ResetKeepsOk` | scripts/host_os_scheduler.py:508-526 | a compaction that resets free list and bump pointer keeps the accounts |
| `Balancer.LoadBalancer.SelectNode` | scripts/host_os_scheduler.py:339-357 | shared pages go to the shared node and private ones elsewhere, by the policy: the next in turn, the first least utilised, or the first of the nodes that hold most of the request's pages if it is below the threshold |
| `Balancer.ChoiceDetermined` | scripts/host_os_scheduler.py:339-397 | the policies leave no choice open: two nodes that meet the rule are equal, and shared exactly for shared pages |
| `Balancer.LoadBalancer.PickLocal` | scripts/host_os_scheduler.py:382-397 | the first node holding most of the request's pages if it is eligible and below the threshold, else the first least utilised |
| `Balancer.LoadBalancer.PickLeastLoaded` | scripts/host_os_scheduler.py:376-380 | the first candidate of least utilisation |
| `Balancer.RoundRobinFair` | scripts/host_os_scheduler.py:368-374 | any |candidates| consecutive round-robin decisions visit every candidate exactly once |
| `Balancer.RoundRobinOrder` | scripts/host_os_scheduler.py:368-374 | round-robin goes through the private nodes in ascending order and starts again after the last |
| `Balancer.LeastChoice` | scripts/host_os_scheduler.py:376-380 | the least-loaded policy chooses the lowest private node that none is less utilised than |
| `Balancer.LocalChoice` | scripts/host_os_scheduler.py:382-397 | a request stays on the node with most of its pages, among equals the first it had, exactly if that is private and below the threshold, and else goes where the least-loaded policy sends it |
| `SchedulerRun.ListsPartition` | scripts/host_os_scheduler.py:662-713 | sound lists partition the live pages by owner exactly when they are complete |
| `SchedulerRun.ResetList` | scripts/host_os_scheduler.py:662-665 | starting a request with an empty list keeps the lists complete exactly when it had no pages |
| `SchedulerRun.MovedOwners` | scripts/host_os_scheduler.py:717-728 | migration changes no owner and no shared page's place |
| `SchedulerRun.BlockStartsTotal` | scripts/host_os_scheduler.py:668-673 | the lines that ask for a page are as many as the blocks of 16 tokens of all requests |
| `SchedulerRun.LineEffect` | scripts/host_os_scheduler.py:648-739 | a line changes the lists by at most one new page, appended for its request exactly when the line starts a block and the chosen node has room; a check after it changes no owner |
| `SchedulerRun.RunKeeps` | scripts/host_os_scheduler.py:613-744 | in every run lists hold live pages of their request, each once, and shared pages stay on the shared node |
| `SchedulerRun.RunCounts` | scripts/host_os_scheduler.py:642-728 | the counters count the lines, with one check and one sample every `interval` lines |
| `SchedulerRun.RunBlocks` | scripts/host_os_scheduler.py:668-705 | in every run, the pages in a request's list and the times the node chosen for it was full add up to its blocks; requests not in the trace keep their lists |
| `SchedulerRun.RunPages` | scripts/host_os_scheduler.py:668-728 | the table grows by exactly the pages in the lists of the trace's requests, and by at most one per block |
| `SchedulerRun.RunCompleteIff` | scripts/host_os_scheduler.py:662-713 | the lists hold every live page at the end exactly when they did at the start and no request of the trace had a list before |
| `SchedulerRun.SecondTraceDrops` | scripts/host_os_scheduler.py:662-665 | from an empty scheduler, a trace that writes a token of request 7 and a second that reads for it: the lists hold every live page after the first and not after the second |
| `SchedulerRun.RunAccesses` | scripts/host_os_scheduler.py:707-713 | the access counts grow by one for each read that reached a page, and by nothing else, migrations included |
| `SchedulerRun.ReadReachesOwn` | scripts/host_os_scheduler.py:707-713 | a read of a request with pages reaches the live page it was given last and changes the count of no other |
| `SchedulerRun.RunAmple` | scripts/host_os_scheduler.py:691-705 | if the earlier pages and all blocks of the trace fit on one node, no attempt fails |
| `SchedulerRun.RunReads` | scripts/host_os_scheduler.py:707-713 | and exactly the reads of requests that have written a token reach a page |
| `SchedulerLaws.OneMoreLine` | scripts/host_os_scheduler.py:648-713 | line by line: K and V lines are tokens and RK and RV lines reads of the request in the fifth field, and each sixteenth token from the first on starts a block |
| `SchedulerLaws.RunFirstSeen` | scripts/host_os_scheduler.py:658-665 | the time kept for each request is that of its first line: the fourth field, or 100 for each line counted before |
| `SchedulerLaws.RunSamples` | scripts/host_os_scheduler.py:717-739 | the k-th sample is taken at line k * interval |
| `Scheduler.HostOSScheduler.constructor` | scripts/host_os_scheduler.py:557-611 | the parts get the policy, the shared node, the capacity and the bandwidth given, the overload threshold 0.85, the imbalance threshold 0.2 and batches of 64 pages |
| `Scheduler.HostOSScheduler.DetectShared` | scripts/host_os_scheduler.py:674-689 | the layout is looked up once, in the first 5000 lines, and kept |
| `Scheduler.HostOSScheduler.AllocateFor` | scripts/host_os_scheduler.py:673-705 | fails exactly when the node chosen for the request is full; otherwise one page enters the table on that node, the list of the request, and its locality |
| `Scheduler.HostOSScheduler.ReadToken` | scripts/host_os_scheduler.py:707-713 | a read counts an access on the last page of the request, if it has one |
| `Scheduler.HostOSScheduler.Rebalance` | scripts/host_os_scheduler.py:717-739 | the balancer gets the page counts from before the round; the sample records the moves made |
| `Scheduler.HostOSScheduler.ProcessLine` | scripts/host_os_scheduler.py:648-739 | each line takes the scheduler through one step of the state machine |
| `Scheduler.HostOSScheduler.ProcessTrace` | scripts/host_os_scheduler.py:613-744 | the states gone through are a run from the old to the new state; list plus failures equal the blocks of 16 tokens for each request; the table grows by the pages in the lists; accesses by the reads that reached a page; the lists are complete exactly when they were and no request had pages before; and if the blocks fit on one node every request has all its pages and every later read is counted |
| `Rit.RedirectTwice` | ramulator2/src/addr_mapper/impl/rit.cpp:48-53 | redirection is an involution |
| `Rit.InsertKeepsIff` | ramulator2/src/addr_mapper/impl/rit.cpp:99-109 | an insertion keeps the table an involution exactly when the rows differ and are both fresh or already partners |
| `Rit.RemoveKeepsIff` | ramulator2/src/addr_mapper/impl/rit.cpp:118-123 | a removal does exactly when it parts no row from a partner outside the pair |
| `Rit.UnlockKeeps` | ramulator2/src/addr_mapper/impl/rit.cpp:90-96 | unlocking keeps the involution, the size and every redirection |
| `Rit.InsertedRows` | ramulator2/src/addr_mapper/impl/rit.cpp:99-109 | the two rows of an inserted pair are locked and found at each other's place, every other row as before |
| `Rit.RemovedRows` | ramulator2/src/addr_mapper/impl/rit.cpp:90-123 | removed rows are found at home and every other row as before; unlocking takes every lock and no partner |
| `Rit.TouchKeepsIff` | ramulator2/src/addr_mapper/impl/rit.cpp:61-63 | asking for a lock inserts a missing row, so it keeps the involution exactly on rows that are present |
| `Rit.EvenSize` | ramulator2/src/addr_mapper/impl/rit.cpp:99-123 | the size of the table is even |
| `Rit.CheckSufficesIff` | ramulator2/src/addr_mapper/impl/rit.cpp:56-58 | checking that the table is not full is enough before inserting a pair exactly when the capacity is even (the repository computes it as twice a number, ramulator2/rh_study/calc_rh_parameters.py:37) |
| `Rit.RowIndirection.InitRit` | ramulator2/src/addr_mapper/impl/rit.cpp:34-45 | one empty table per bank |
| `Rit.RowIndirection.Insert` | ramulator2/src/addr_mapper/impl/rit.cpp:99-115 | the pair is entered, locked, and the overflow exit is taken exactly when the capacity is exceeded |
| `Rit.RowIndirection.Remove` | ramulator2/src/addr_mapper/impl/rit.cpp:118-123 | both rows leave the table |
| `Rit.RowIndirection.IsLocked` | ramulator2/src/addr_mapper/impl/rit.cpp:61-63 | the lock, with the missing row inserted |
| `Rit.RowIndirection.Unlock` | ramulator2/src/addr_mapper/impl/rit.cpp:90-96 | all entries of all banks are unlocked, and validity is kept |
| `Rit.RowIndirection.GetUnswapPair` | ramulator2/src/addr_mapper/impl/rit.cpp:126-138 | an unlocked pair with no excluded row, or none exists |
| `HotRows.HotRowTracker.Activate` | ramulator2/src/dram_controller/impl/plugin/rrs.cpp:157-234 | a tracked row is counted; a new one enters a table with room, takes the place of some row whose count equals the spillover counter, or else raises that counter; it is to be swapped exactly when its count is then a multiple of the threshold |
| `HotRows.EpochCounted` | ramulator2/src/dram_controller/impl/plugin/rrs.cpp:157-216 | in any epoch counts and spillover counter add up to the activations, and no count lies below the spillover counter |
| `HotRows.EpochCovers` | ramulator2/src/dram_controller/impl/plugin/rrs.cpp:157-216 | no row has been activated more often than its count says, or than the spillover counter if it is not in the table |
| `HotRows.NeverMissed` | ramulator2/src/dram_controller/impl/plugin/rrs.cpp:157-234 | with fewer than (entries + 1) * threshold activations of a bank in an epoch, no row reaches `threshold` activations without being swapped, at any point |
| `HotRows.GuaranteeIff` | ramulator2/src/dram_controller/impl/plugin/rrs.cpp:157-234 | and the bound is exact: that many activations can leave a row activated `threshold` times and never swapped |
| `HotRows.Flood` | ramulator2/src/dram_controller/impl/plugin/rrs.cpp:157-207 | they do if the other rows fill the table first, `threshold` activations each |
| `SwapPlugin.RRS.EndEpoch` | ramulator2/src/dram_controller/impl/plugin/rrs.cpp:125-131 | all counters are cleared and all tables unlocked, once for each bank |
| `SwapPlugin.RRS.Update` | ramulator2/src/dram_controller/impl/plugin/rrs.cpp:121-347 | one cycle: the epoch ends when due, the activation is counted, and the row is swapped exactly when its count asks for it, with the tracked rows of its bank as the hot ones |
| `RowSwap.GetRandRow` | ramulator2/src/dram_controller/impl/plugin/rrs.cpp:349-362 | the first draw that is neither hot nor swapped nor the row itself, in any table |
| `RowSwap.MakeRoom` | ramulator2/src/dram_controller/impl/plugin/rrs.cpp:250-263 | a full table, whatever it holds, gives up one unlocked pair without hot rows, if there is one |
| `RowSwap.SwapRow` | ramulator2/src/dram_controller/impl/plugin/rrs.cpp:238-339 | in any table: without room and without a pair to undo the program ends; otherwise the rows given are the first, for a locked pair the first two, accepted draws, and the program ends exactly if the table then exceeds its capacity; a valid table never does, and it stays valid exactly unless the row was locked before the call and the second accepted draw equals the first |
| `RowSwap.PicksOneMore` | ramulator2/src/dram_controller/impl/plugin/rrs.cpp:349-362 | a further draw is accepted exactly if it is not hot, has no partner and is not the row itself |
| `RowSwap.BlockedIff` | ramulator2/src/dram_controller/impl/plugin/rrs.cpp:250-263 | the program ends for want of room exactly when a pair must be entered, the table is full, and each of its rows is locked or hot or has a hot partner |
| `RowSwap.UndoneIsCold` | ramulator2/src/dram_controller/impl/plugin/rrs.cpp:250-263 | a pair undone to make room is neither locked nor hot, and only it leaves the table |
| `RowSwap.SwapsStand` | ramulator2/src/dram_controller/impl/plugin/rrs.cpp:238-339 | within an epoch swaps stand: a locked pair keeps its place whatever row is swapped, unless that is one of its own, and a row that has been swapped is locked |
| `RowSwap.DecisionInvolutionIff` | ramulator2/src/dram_controller/impl/plugin/rrs.cpp:238-339 | the table stays an involution exactly unless the row is locked in a pair and the second accepted draw equals the first |
| `RowSwap.DecisionOneToOneIff` | ramulator2/src/dram_controller/impl/plugin/rrs.cpp:238-339 | redirection after the decision is one-to-one exactly under the same condition |
| `RowSwap.DecisionOneToOneBelowIff` | ramulator2/src/dram_controller/impl/plugin/rrs.cpp:238-339 | among the rows of the bank, two collide exactly if moreover the old partner is one of them |
| `RowSwap.DoubleDrawBreaks` | ramulator2/src/dram_controller/impl/plugin/rrs.cpp:264-283 | two decisions for row 1, the second of which draws row 5 twice, end without an involution, with rows 1 and 2 both found at row 5 |
| `RowSwap.DecisionTracksIff` | ramulator2/src/dram_controller/impl/plugin/rrs.cpp:238-339 | the table keeps sending each row to where its contents are, exactly unless the row is locked in a pair and two draws are accepted |
| `RowSwap.RepairedTracksOthers` | ramulator2/src/dram_controller/impl/plugin/rrs.cpp:264-283 | in that case exactly the two new rows are sent to each other's place |
| `RowSwap.DecisionBelowIff` | ramulator2/src/dram_controller/impl/plugin/rrs.cpp:238-339 | any table stays within the bank exactly when the draws used do |
| `RowSwap.BelowThroughoutIff` | ramulator2/src/dram_controller/impl/plugin/rrs.cpp:121-347 | over any run, double draws or not, all rows in the table are rows of the bank at every point exactly when every draw used is |
| `RowSwap.TopDrawMisplaced` | ramulator2/src/dram_controller/impl/plugin/rrs.cpp:103 | a first swap that draws the number of rows sends row 1 there |
| `RowSwap.TopDrawPickable` | ramulator2/src/dram_controller/impl/plugin/rrs.cpp:103 | the largest possible draw is one past the last row, and it is accepted |
| `RowSwap.InvolutionThroughoutIff` | ramulator2/src/dram_controller/impl/plugin/rrs.cpp:121-347 | over any run, of any number of channels, the table is an involution within its capacity at every point exactly when no step gives both rows of a locked pair the same partner |
| `RowSwap.OneToOneThroughoutIff` | ramulator2/src/dram_controller/impl/plugin/rrs.cpp:121-347 | and redirection is one-to-one at every point exactly under the same condition |
| `RowSwap.RunRooted` | ramulator2/src/dram_controller/impl/plugin/rrs.cpp:121-347 | no row and no partner is ever negative, so -1 always means that a row has no partner |
| `RowSwap.TrackedThroughoutIff` | ramulator2/src/dram_controller/impl/plugin/rrs.cpp:121-347 | every row of every channel is found where its contents are throughout a run exactly when, with one channel, no locked pair is re-paired, and with more, nothing is ever swapped |
| `RowSwap.OtherChannelIff` | ramulator2/src/dram_controller/impl/plugin/rrs.cpp:85-99 | as the channels share the table, a decision misleads every other channel exactly unless it does nothing |
| `RowSwap.SecondChannelMisled` | ramulator2/src/addr_mapper/impl/rit.cpp:34-45 | a single swap of rows 1 and 2 in channel 0 sends row 1 of channel 1 to row 2 |
| `Mappers.CalcLog2` | ramulator2/src/base/utils.h:61-70 | the floor of the base-2 logarithm |
| `Mappers.SliceLowerBits` | ramulator2/src/base/utils.h:80-87 | splits a number into its low bits and the rest, losing nothing |
| `Mappers.LinearMapper.Setup` | ramulator2/src/addr_mapper/impl/linear_mappers.cpp:23-50 | bit widths are logarithms of the level counts, the column's less the prefetch; without a row level it fails |
| `Mappers.LinearMapper.ApplyChRaBaRoCo` | ramulator2/src/addr_mapper/impl/linear_mappers.cpp:64-70 | the loop computes the slices from the last level up |
| `Mappers.LinearMapper.ApplyRoBaRaCoCh` | ramulator2/src/addr_mapper/impl/linear_mappers.cpp:84-92 | the loop computes channel, column, then the levels up to the row |
| `Mappers.LinearMapper.ApplyMOP4CLXOR` | ramulator2/src/addr_mapper/impl/linear_mappers.cpp:106-123 | the loops compute the split column slices and the exclusive or |
| `Mappers.ChRoundTrip` | ramulator2/src/addr_mapper/impl/linear_mappers.cpp:64-70 | the mapper and its inverse are one-to-one between addresses within the capacity and component vectors in range |
| `Mappers.RoRoundTrip` | ramulator2/src/addr_mapper/impl/linear_mappers.cpp:84-92 | the same for RoBaRaCoCh |
| `Mappers.MopRoundTrip` | ramulator2/src/addr_mapper/impl/linear_mappers.cpp:106-123 | every address within the capacity has its components in range and is recovered from them |
| `Mappers.MopOnto` | ramulator2/src/addr_mapper/impl/linear_mappers.cpp:106-123 | and every vector in range belongs to an address within the capacity |
| `Mappers.XorAllTwice` | ramulator2/src/addr_mapper/impl/linear_mappers.cpp:115-122 | as the column is never changed, the exclusive or undoes itself and stays in range |
| `Mappers.WidthOfPower` | ramulator2/src/addr_mapper/impl/linear_mappers.cpp:29-34 | for counts that are powers of two the widths are their exponents |
| `Layout.ChLayout` | ramulator2/src/addr_mapper/impl/linear_mappers.cpp:64-70 | an address is the sum of each component times the sizes of all later levels, so the channel is the top field and the column the lowest |
| `Layout.ChNextColumn` | ramulator2/src/addr_mapper/impl/linear_mappers.cpp:64-70 | the next transaction is in the next column of the same row, unless the column was the last |
| `Layout.RoLayout` | ramulator2/src/addr_mapper/impl/linear_mappers.cpp:84-92 | the channel is the lowest field, then come the column and the levels between, the row on top |
| `Layout.RoNextChannel` | ramulator2/src/addr_mapper/impl/linear_mappers.cpp:84-92 | the next transaction is in the next channel, unless the channel was the last |
| `Layout.MopLayout` | ramulator2/src/addr_mapper/impl/linear_mappers.cpp:106-113 | before the exclusive or: two column bits, the levels above the row, the other column bits, and everything left is the row, for every address |
| `Layout.MaskLayout` | ramulator2/src/addr_mapper/impl/linear_mappers.cpp:115-119 | the shares of the column that the levels are combined with are its low bits, in order |
| `Layout.MopBitLaw` | ramulator2/src/addr_mapper/impl/linear_mappers.cpp:115-122 | each bit of each level but the column is the sum modulo two of the bit cut out and the bit of the column at the same place of the level's share; bits beyond the width stay |
| `Placement.FlatBankId` | ramulator2/src/addr_mapper/impl/rit.cpp:72-77 | the loop computes the mixed-radix bank number |
| `Placement.Levels.FlatBound` | ramulator2/src/addr_mapper/impl/rit.cpp:72-77 | it lies below the number of banks |
| `Placement.Levels.FlatInjective` | ramulator2/src/addr_mapper/impl/rit.cpp:72-77 | and determines every level from rank to bank |
| `Placement.Levels.FlatLayout` | ramulator2/src/addr_mapper/impl/rit.cpp:72-77 | one more at a level moves it by the product of the counts of the levels below, and all zeros is bank 0 |
| `Placement.ApplyIndirection` | ramulator2/src/addr_mapper/impl/rit.cpp:66-87 | replaces the row by its partner, or nothing if the table was never set up |
| `Placement.PlacedTwice` | ramulator2/src/addr_mapper/impl/rit.cpp:66-87 | with involutions placing twice gives the vector back |
| `Placement.EndToEndIff` | ramulator2/src/addr_mapper/impl/rit.cpp:150-225 | for each of the three mappers: mapper and indirection send different addresses to different places exactly when, in the table of each bank, different rows are found at different places |
| `Placement.ApartThroughoutIff` | ramulator2/src/dram_controller/impl/plugin/rrs.cpp:121-347 | over any history of row swaps in all banks this holds at every point if no step gives both rows of a locked pair the same partner, and exactly then when only pairs of rows of the bank are given one |
| `Placement.DoubleDrawCollidesIff` | ramulator2/src/dram_controller/impl/plugin/rrs.cpp:264-283 | the first such step places two addresses at the same spot exactly if the old partner is a row of the bank |
| `Placement.StayingPairs` | ramulator2/src/dram_controller/impl/plugin/rrs.cpp:121-347 | which it is if every draw used is |
| `Bandwidth.TransferBandwidth` | scripts/cxl_fabric_simulator.py:98-102 | a transfer, of the switch or of a migrated page, takes what the bandwidth asks for, rounded down, and at least a nanosecond |
| `CxlSwitch.IdleOrBusy` | scripts/cxl_fabric_simulator.py:161-173 | a packet that finds its port idle arrives exactly the base latency and its transfer after it was routed, one that finds it busy exactly that long after the port becomes free; the port is then busy until the transfer ends, which starts no earlier than the packet has crossed the switch |
| `CxlSwitch.BurstArrivals` | scripts/cxl_fabric_simulator.py:161-173 | of a burst routed at one moment through an idle port each packet arrives after the transfers up to its own, and all but the first pay the base latency twice |
| `CxlSwitch.BusyNearArrival` | scripts/cxl_fabric_simulator.py:163-173 | the busy clock never goes back and stays within the base latency below the arrival |
| `CxlSwitch.ArrivalSpacing` | scripts/cxl_fabric_simulator.py:163-173 | consecutive arrivals are at least the later packet's transfer time apart, in any order of timestamps |
| `CxlSwitch.PortBandwidth` | scripts/cxl_fabric_simulator.py:163-173 | over any stretch of a run the transfers of all packets after the first fit between first and last arrival |
| `CxlSwitch.CXLSwitchNode.AddPort` | scripts/cxl_fabric_simulator.py:134-142 | a new port is idle |
| `CxlSwitch.CXLSwitchNode.RoutePacket` | scripts/cxl_fabric_simulator.py:144-190 | without a port only the base latency passes; otherwise the first port of the node queues the packet behind its whole run; packets, bytes, waiting times and congestion of each port are those of its run, and those of the switch the sums over its ports |
| `CxlSwitch.ArrivalLater` | scripts/cxl_fabric_simulator.py:155-169 | no packet arrives before its waiting time and the base latency have passed |
| `CxlFabric.CXLFabricSimulator.Pop` | scripts/cxl_fabric_simulator.py:591-592 | some earliest event leaves the queue |
| `CxlFabric.CXLFabricSimulator.Handle` | scripts/cxl_fabric_simulator.py:594-637 | sends go through the switch, a partial send queues its reduce at the arrival, a reduce is counted at its destination |
| `CxlFabric.TurnKeeps` | scripts/cxl_fabric_simulator.py:591-639 | one turn of the loop keeps each node's reduces made and owed, and uses up exactly one step |
| `CxlFabric.CXLFabricSimulator.SimulateNetwork` | scripts/cxl_fabric_simulator.py:579-642 | for any queue and any choice among equals the loop ends; the events popped, in order of time, are as a multiset those of the queue and one reduce per partial send, at its destination and at the arrival that the packets popped before it give; switch and statistics are what these events make of them, and each node has reduced what it was owed |
| `CxlFabric.ReplayedStep` | scripts/cxl_fabric_simulator.py:591-639 | one turn keeps that account of events popped, queued and generated |
| `CxlFabric.CXLFabricSimulator.InjectDistributedAttention` | scripts/cxl_fabric_simulator.py:646-686 | the queue grows by exactly the sends of each step, node by node, in order: S * (N - 1) from and to every node |
| `CxlFabric.CXLFabricSimulator.RunDistributedAttention` | scripts/cxl_fabric_simulator.py:579-686 | after the run each node has received as many partial sums as it sent, S * (N - 1) |
| `CxlFabric.CXLFabricSimulator.constructor` | scripts/cxl_fabric_simulator.py:402-440 | the switch has one port for each node, in order, with the latency and bandwidth given, and no packet has been routed |
| `FabricLaws.PortsRouted` | scripts/cxl_fabric_simulator.py:594-637 | each port has routed the sends to its node in the order they were popped |
| `FabricLaws.LatencySums` | scripts/cxl_fabric_simulator.py:594-637 | the statistics count the events popped and their bytes; the latencies add up to the base latency of each, the waiting times and the transfers, and the delay to the waiting times |
| `FabricLaws.ReduceOfSend` | scripts/cxl_fabric_simulator.py:608-629 | the k-th reduce generated belongs to the k-th partial send and happens at its destination after base latency, wait and transfer |
| `FabricLaws.InjectedIff` | scripts/cxl_fabric_simulator.py:664-681 | the injected events are exactly one partial sum from every node to every other in each step, at the time of the step |
| `FabricLaws.TransfersLineByLine` | scripts/cxl_fabric_simulator.py:515-571 | a line queues a transfer of 64 bytes from the shared node exactly when it is a shared read for another node |
| `CxlFabric.CXLFabricSimulator.IsSharedAccess` | scripts/cxl_fabric_simulator.py:515-543 | by address range; the low range only with the layout, looked up once |
| `CxlFabric.CXLFabricSimulator.LoadAndSplitTrace` | scripts/cxl_fabric_simulator.py:466-571 | each node gets exactly its lines in order, and each shared read by another node is counted at both ends and queued once; the layout is remembered exactly if a valid line lies in the low range |
| `TraceSplit.SplitTrace` | scripts/split_trace_by_node.py:38-141 | the loop computes the split of its rule, and the lengths of the node traces add up to the number of valid lines |
| `Splitting.OneNodeEach` | scripts/split_trace_by_node.py:95-141 | every valid line goes to exactly one node |
| `Splitting.OneCrossingEach` | scripts/cxl_fabric_simulator.py:557-571 | one transfer for each shared read |
| `Splitting.LineByLine` | scripts/cxl_fabric_simulator.py:485-571 | a line of three fields or more goes to the shared node or, by its request, to a private one, without time and request; a shared read by another node is a remote read |
| `Splitting.SameHomeIff` | scripts/cxl_fabric_simulator.py:549-559 | two requests have the same private node exactly when they differ by a multiple of the number of private nodes, and the first requests take the nodes in turn |
| `Splitting.SharedIsFirst` | scripts/split_trace_by_node.py:53-69 | shared data is on the first node with the shared role, or on node 0 |
| `Splitting.PrivatesOf` | scripts/cxl_fabric_simulator.py:466-477 | the private nodes are those without the shared role for the one splitter and those with the private role for the other, and without any all nodes but the first |
| `Splitting.SharedNodeLines` | scripts/split_trace_by_node.py:110-141 | the lines counted as shared are those the shared node gets |
| `Splitting.SplittersAgreeIff` | scripts/cxl_fabric_simulator.py:466-571 | with shared and private nodes and no other roles, both splitters give the same node sequences and remote reads exactly when the prefix-sharing layout was detected or no valid line lies in the low shared range |
| `Splitting.SplittersDisagree` | scripts/cxl_fabric_simulator.py:515-571 | they differ for a shared and a private node and one line of the low range without a high address |
| `Trace.DetectLayout` | scripts/cxl_fabric_simulator.py:535-541 | whether one of the first 5000 lines has a high address |
| `Trace.LayoutDecided` | scripts/cxl_fabric_simulator.py:535-541 | any one of the first 5000 lines decides it, and no later one |
| `Inlu.ReducedRange` | scripts/iNLU_algorithm_sim.py:64-66 | range reduction leaves an argument in (-710, 0] |
| `Inlu.ExpShifts` | scripts/iNLU_algorithm_sim.py:63-77 | for x <= 0 the result lies in 0 .. 1023 |
| `Inlu.ExpOfZero` | scripts/iNLU_algorithm_sim.py:63-77 | it is 1023 at 0 |
| `Inlu.ExpHalves` | scripts/iNLU_algorithm_sim.py:63-77 | 710 below, it is exactly the value shifted right by one |
| `Inlu.ExpMonotone` | scripts/iNLU_algorithm_sim.py:63-77 | it is monotone on all x <= 0, seams included |
| `Inlu.ExpMonotoneIff` | scripts/iNLU_algorithm_sim.py:63-77 | on all arguments it is monotone exactly except from each non-negative multiple of 710 to the next number |
| `ExpLaw.ExpProduct` | scripts/iNLU_algorithm_sim.py:63-77 | it is exponential: for all x, y <= 0 the product of the values at x and y is within five units of 1024 of 1024 times the value at x + y |
| `Inlu.SoftmaxDefined` | scripts/iNLU_algorithm_sim.py:55-60 | for shifted logits the sum is positive and normalisation never fails |
| `Inlu.SoftmaxOrder` | scripts/iNLU_algorithm_sim.py:55-77 | outputs lie in 0 .. 2^24 and keep the order of the logits |
| `Inlu.SoftmaxTop` | scripts/iNLU_algorithm_sim.py:55-77 | the largest logit gets at least floor(2^24 / n) |
| `Inlu.SoftmaxSum` | scripts/iNLU_algorithm_sim.py:55-77 | the outputs sum to 2^24 within n / 2 |
| `Inlu.QuotientNear` | scripts/iNLU_algorithm_sim.py:55-60 | each output is the nearest integer to its share of 2^24, halves going up |
| `ExpLaw.SoftmaxRatio` | scripts/iNLU_algorithm_sim.py:55-77 | the ratio of two outputs depends on the difference of their logits only: the smaller is the larger times the exponential of the difference, up to rounding and the five units |

## Left out

- Prerequisite, row-hit, row-open and power functions of the DRAM devices: preq.h and power.h are not part of this model.
- The other DRAM devices (DDR3, the VRR variants, GDDR6, HBM, HBM2) run the same engine under other tables.
- Timing presets, energy, voltage and current: constant data and floating point. The tables take the derived cycle counts as parameters.
- The command tables name levels and commands by index instead of by string; an unknown name cannot be written.
- Channel numbers of addresses are valid and not wildcards, as the source indexes its channels with them unchecked.
- Ddr4.ExclusiveIffSpaced: the organisation has at least one bank group and one bank in each rank; without banks there is nothing to cover.
- Ddr4Spacing.ReadyIff: the organisation has a bank group, a bank and a rank at least, so that addresses that share a node name one that is there; the same holds for DDR5.
- Ddr4.OpenRowsOf: the law speaks of runs without refresh; what a refresh and its completion do to banks is stated command by command (DramRun.RefreshStart, DramRun.RefreshEnd).
- DramNode.Node.RelaxEntries: one method stands for both loops of update_timing, which differ in the entries they skip.
- DramNode.Node.ActOnBankGroups: the map from rows to states is kept as the set of open rows, the only state the source stores in it.
- Bank actions on victim rows (VRR and its end) are wired in no modelled device.
- PageTable.GlobalKVPageTable.AllocatePage: pages are values in the table, so a caller that keeps a page object and changes it is not modelled.
- Migrator.DynamicMigrator.CheckAndMigrate: utilisations are exact, where the source accumulates floating-point steps; rounding could change a choice between nearly equal nodes.
- Balancer.LoadBalancer.SelectNode: the configuration has the shared node and at least one more; with none the source raises an error at the first private page. Access counts handed to the balancer influence no decision and are left out, as are decision counts.
- Scheduler.HostOSScheduler.ProcessTrace: lines are parsed records, an unparsable number is not modelled, and the migration interval is positive. Results, timelines for plots and statistics other than the samples are left out.
- Mappers.LinearMapper.ApplyMOP4CLXOR: the cast of the remaining bits to a 32-bit row is not modelled; it matters only for addresses far beyond the capacity.
- Mappers.LinearMapper.Setup: bit widths below 31 are assumed where the source shifts an int by them.
- Rit.RowIndirection.GetUnswapPair: any suitable pair may be returned; the source takes the first in the order of its hash table.
- RowSwap.SwapRow: where the program exits the table of the bank is not pinned; draws that run out before one is accepted, where the loop of the source goes on, end the call with no decision.
- RowSwap.GetRandRow: the random draws are a parameter.
- HotRows.HotRowTracker.Activate: any evictable row may be evicted; the source takes the first in the order of its hash table.
- Placement.ApplyIndirection: no partner is negative, as in every table the plugin reaches (RowSwap.RunRooted); the source takes a partner -1 for none.
- Placement.ApartThroughoutIff: the converse leaves out what follows a double draw for a pair whose partner is the row one past the last; that step itself makes no two rows of the bank collide (Placement.DoubleDrawCollidesIff).
- SwapPlugin.RRS.Update: each call is one cycle of one channel's plugin; thresholds and periods are positive, as the source divides by them.
- The AQUA plugin, which also drives the row table, is not modelled.
- Swap requests sent to the memory controller are kept as the pairs of rows exchanged.
- CxlFabric.CXLFabricSimulator.Pop: the heap order among events of equal time is left open.
- CxlFabric.CXLFabricSimulator.Handle: the per-transfer records are left out, as are hop counts, queue depth and the synchronisation barrier, which the event loop never uses.
- CxlFabric.CXLFabricSimulator.LoadAndSplitTrace: node ids are distinct and below the number of nodes, and some private node exists, as the source fails otherwise.
- TraceSplit.SplitTrace: a missing time is 0 instead of the text "0"; writing the files is left out.
- Inlu.ExpMonotoneIff: integers are unbounded, where the source doubles 64-bit numbers for large positive arguments.
- Reference softmax, lookup-table variant, quantisation and error metrics: floating point.
- Random workloads, fault recovery, plots, configuration files, command lines and statistics output: no state to keep.
