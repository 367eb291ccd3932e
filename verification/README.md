# Proofs about a teaching kernel

A Dafny model of the parts of a small x86-64 kernel, its user programs and its file-system tool that
have something hard to get right, with proofs of what they promise. Where the original changes state
in place, the model is a class or an array whose methods change it in place, and each method is proved
equal to a function on values; the properties over whole runs are then lemmas about those functions.

| files | what they model |
|---|---|
| `BuddyRounding`, `BuddyTree`, `BuddyRuns`, `BuddyMemoryManager` | the buddy allocator: request rounding, the tree it keeps, runs of alloc and free, and the headers in memory |
| `FreeListBlocks`, `FreeListRuns`, `FreeListMemoryManager` | the free-list allocator: the tiling, runs, and the doubly linked headers |
| `BmfsDirectory`, `BmfsCreate`, `Bmfs` | the BMFS tool: the sorted gap scan, the directory, and the disk |
| `SchedulerSpec`, `SchedulerPopulation`, `SchedulerDrops`, `SchedulerSwitch`, `SchedulerFamily`, `SchedulerWait`, `SchedulerAging`, `Scheduler` | the multi-level scheduler: its steps on values, who is where, who is lost, where a switched process goes and for how long it runs, parents and children, who waits how long, who ages, and the linked queues |
| `Philosophers`, `Semaphore` | two concurrent protocols, as interleavings of any number of processes |
| `IpcBuffer`, `PipeStream`, `Pipe` | ring buffers, pipes as byte streams, and pipes over two buffers |
| `ModuleImage`, `ModulePacker`, `ModuleLoader` | the packed kernel image, its writer and its reader |
| `Numerals`, `UserString`, `KernelString` | printing and parsing numbers |
| `Strtok` | cutting a string into tokens in place |
| `Option`, `Byte` | the optional value, and a byte |

`dafny verify dfyconfig.toml` verifies everything.

## What the code does not do as intended

The model follows the code, and each of these is proved exactly. Where one or two assignments repair
it, a flag chooses between the code as written (`false`) and the repaired code (`true`), and the
property over every run is proved for the repaired one.

- Buddy allocator, `clearsLinks`: `setDescendants` never clears the links of fresh children, so they
  are leaves exactly when the bytes found there happen to be NULL (`FreshChild`). As written the model
  needs memory whose stale links are NULL; with the two assignments added, none of that is needed.
- Buddy allocator: a size s with request <= s/2 < request + 32 is split in vain, after which an EMPTY
  node keeps children (`SplitInVainIff`) and a request can be refused although a leaf fits
  (`AllocSucceedsIff` says exactly when). Neither of the two arenas ever meets such a size.
- Free list, `updatesPrev`: the `prev` of the following node is not updated by a split or a merge, and
  a later free can merge with the wrong node. The arena stays tiled if and only if `PrevKeepsTiling` held
  before the free, and no payload a client holds is written if and only if `PrevSparesPayloads` did; neither
  implies the other. `StalePrevRun` and `OverwritingRun` run the allocator from its constructor into the
  failure of the one and of the other.
- Free list: `%` binds tighter than `+` in the rounding of a request (line 81), and the comment promises
  4 KiB blocks where `BLOCK_SIZE` is 0x500; enough is taken all the same (`TakesEnough`).
- BMFS, `repaired`: a deleted record's stale extent moves the scan on, and a full directory counts as
  empty. `WrittenCreateIff` gives the exact condition under which `create` keeps every live file;
  reusing record 0 of a full directory even ends the directory after it.
- Scheduler, `requeuesReady`: a running process whose state is READY is put in no queue when it is switched
  away. `TickPopulation` says that exactly this loses a process, and `DropsReadyIff` when it happens, in terms
  of the state before the tick: at the end of its quantums the running process is READY, woken by a timer of
  its own, or the parent of a queued process that has exited. `createInit` leaves `init` READY.
- Scheduler: `setParentReady` makes the parent READY whatever its state, an EXITED one included, which is
  then not deleted. `DropsReadyIff` speaks of states in which no exited child of the running process is
  itself involved with another exited process; without that premise `DropsOnlyIf` still holds.
- Scheduler: `nextProcess` does not look for a READY process, as the comment above it says, but takes the
  head of the first non-empty queue.
- Semaphore: `_semLock` returns without taking anything when the value is 0 (`LoneLock`), so it does not
  block. The file documents rdi and rdx, where section 3.2.3 of the System V AMD64 ABI passes the second
  argument in rsi; the model uses the documented registers.
- Ring buffer, `parenthesised`: the stores index with `cursor + bufferDim % BUFF_SIZE`. As written all
  stores of a pipe fall inside the arrays if and only if neither end ever stores more than 1024 bytes in
  all (`AsWrittenIffShort`); with the parentheses there is no such limit.
- Pipe: the move to the read end ignores how much was accepted. `PipeIsAFifo` says exactly when nothing
  is lost, `CloseMarks` when the end-of-file mark is lost, and `NulBlocksTheReader` why data must not
  contain NUL.
- The kernel's `numToString` admits a text that fills the announced buffer and then writes its NUL one
  place behind it; it returns characters, sign included, where its comment and the user version say digits.
- `isHex` looks past the NUL of an empty string, and with a trailing h `stringHexToNum` loses the first
  digit: of the numbers written without a leading zero only 0 is read back (`TrailingHReadsBackIff`).

## Assumptions

- Addresses, sizes and counters are unbounded integers except where the width matters: the bit cascade
  of `align` (arguments below 2^31), 64-bit subtraction in `create`, the 64-bit semaphore word, the 16-bit
  ring cursor, 32-bit sizes in the packed image, and `int` in the number functions, which are proved to
  stay in range.
- A header is read and written as a unit at its address.
- The interval a process ran, and the processes whose timers are due, are inputs of a tick. The read
  through NULL in `nextProcess`, after idle was running, selects no case of the switch.
- The critical sections of the philosophers are atomic; nothing is assumed of their other semaphores.

## Model

| member | source | states |
|---|---|---|
| BuddyRounding.OnlyPowersPassTheTest | Kernel/memoryManagement/buddyMemoryManager.c:8 | the bit test accepts a positive number only if it is a power of two |
| BuddyRounding.PowersPassTheTest | Kernel/memoryManagement/buddyMemoryManager.c:8 | it accepts every power of two |
| BuddyRounding.ShiftDoublesTheOnes | Kernel/memoryManagement/buddyMemoryManager.c:261-265 | one line of the cascade doubles the number of leading ones |
| BuddyRounding.AlignIsNextPower | Kernel/memoryManagement/buddyMemoryManager.c:260-267 | on n-bit numbers, n up to 31, the cascade ends in 2^n |
| BuddyRounding.AlignIsLeastPowerAbove | Kernel/memoryManagement/buddyMemoryManager.c:260-267 | below 2^31 the result is a power of two above the argument, at most twice it, and none lies between |
| BuddyTree.RoundUpIsPower | Kernel/memoryManagement/buddyMemoryManager.c:73-82 | the size searched for is a power of two from 0x1000 up, at least the request and below twice it |
| BuddyTree.GrantedSize | Kernel/memoryManagement/buddyMemoryManager.c:73-115 | every granted payload holds the request and is below four times it, or below 16 KiB |
| BuddyTree.BlocksInside | Kernel/memoryManagement/buddyMemoryManager.c:118-141 | each outstanding block, header included, lies inside the node it was cut from |
| BuddyTree.BlocksDisjoint | Kernel/memoryManagement/buddyMemoryManager.c:118-141 | two outstanding blocks never overlap, and a header fits between them |
| BuddyTree.EmptyMeansNoBlocks | Kernel/memoryManagement/buddyMemoryManager.c:147-164 | the status computed bottom-up is EMPTY exactly when nothing below is handed out |
| BuddyTree.AllocAddsOneBlock | Kernel/memoryManagement/buddyMemoryManager.c:88-116 | a request hands out one new block of at least its size, or changes no block |
| BuddyTree.FreeRemovesOneBlock | Kernel/memoryManagement/buddyMemoryManager.c:170-197 | free removes the block issued at that address, and for any other address nothing |
| BuddyTree.IssuedOnOneSide | Kernel/memoryManagement/buddyMemoryManager.c:175-180 | the address comparison looks for a block only in the half that issued it |
| BuddyTree.AllocSucceedsIff | Kernel/memoryManagement/buddyMemoryManager.c:88-116 | exactly when a request succeeds, on every tree and for every request |
| BuddyTree.AllocTakesTheLowest | Kernel/memoryManagement/buddyMemoryManager.c:92-111 | a block comes from the usable leaf with the lowest address, one header further in for every halving |
| BuddyTree.FullIffNoEmptyLeaf | Kernel/memoryManagement/buddyMemoryManager.c:147-164 | the status is FULL exactly when no leaf below is EMPTY |
| BuddyTree.ChildrenFillTheNode | Kernel/memoryManagement/buddyMemoryManager.c:118-137 | both children, headers included, fill the payload they are cut from, but for an odd byte |
| BuddyTree.AllocIsComplete | Kernel/memoryManagement/buddyMemoryManager.c:88-116 | on a good halving chain a request fails exactly when no EMPTY leaf fits |
| BuddyTree.AllocKeepsCoalesced | Kernel/memoryManagement/buddyMemoryManager.c:88-116 | on a good chain no EMPTY node keeps children after a request |
| BuddyTree.SplitInVainIff | Kernel/memoryManagement/buddyMemoryManager.c:102-110 | splitting a leaf leaves no EMPTY node with children if and only if the chain is good |
| BuddyTree.FreeKeepsCoalesced | Kernel/memoryManagement/buddyMemoryManager.c:170-197 | no EMPTY node keeps children after a free |
| BuddyTree.NoBlocksMeansSingleRoot | Kernel/memoryManagement/buddyMemoryManager.c:181-187 | a coalesced tree with nothing handed out is the single EMPTY root |
| BuddyRuns.EveryRunIsSafe | Kernel/memoryManagement/buddyMemoryManager.c:65-232 | over every run of requests and frees of any addresses, outstanding blocks are inside the arena, disjoint, and as large as asked |
| BuddyRuns.RunKeepsCoalesced | Kernel/memoryManagement/buddyMemoryManager.c:73-197 | every run on a good arena leaves no EMPTY node with children |
| BuddyRuns.EveryRunIsComplete | Kernel/memoryManagement/buddyMemoryManager.c:73-116 | after any run on a good arena a request is refused exactly when it exceeds every EMPTY leaf |
| BuddyRuns.FreeingEverythingRestoresTheRoot | Kernel/memoryManagement/buddyMemoryManager.c:147-197 | freeing all outstanding blocks in any order restores the single EMPTY root |
| BuddyRuns.BothArenasAreGood | Kernel/memoryManagement/buddyMemoryManager.c:14-15 | neither the kernel's nor the user arena ever splits in vain, for every power of two from 0x1000 |
| BuddyRuns.UserlandChain | Kernel/kernel.c:43-63 | the same for the user arena of 64 pages less 8 bytes |
| BuddyMemory.BuddyMemoryManager.constructor | Kernel/memoryManagement/buddyMemoryManager.c:65-71 | the fresh arena is one EMPTY leaf |
| BuddyMemory.BuddyMemoryManager.GenericAllocMemory | Kernel/memoryManagement/buddyMemoryManager.c:73-86 | the headers in memory and the address returned are those of the tree operation, and no header written reaches into a payload handed out |
| BuddyMemory.BuddyMemoryManager.GenericAllocMemoryRec | Kernel/memoryManagement/buddyMemoryManager.c:88-116 | the same for any node, and nothing outside its span changes |
| BuddyMemory.BuddyMemoryManager.SetDescendants | Kernel/memoryManagement/buddyMemoryManager.c:118-141 | both halves become leaves of the halved size |
| BuddyMemory.BuddyMemoryManager.FreshChild | Kernel/memoryManagement/buddyMemoryManager.c:127-137 | a fresh child has no links if and only if its stale ones were NULL, or they are cleared |
| BuddyMemory.BuddyMemoryManager.EndRecursiveCall | Kernel/memoryManagement/buddyMemoryManager.c:147-164 | only the status changes, to the summary of the children |
| BuddyMemory.BuddyMemoryManager.GenericFree | Kernel/memoryManagement/buddyMemoryManager.c:166-168 | the headers are those of the freed tree, for any address at all, and no header written reaches into a payload handed out |
| BuddyMemory.BuddyMemoryManager.GenericFreeRec | Kernel/memoryManagement/buddyMemoryManager.c:170-197 | the same for any node, and nothing outside its span changes |
| BuddyMemory.ChildSpares | Kernel/memoryManagement/buddyMemoryManager.c:92-98 | what the descent into one half writes is away from every payload of the other |
| BuddyMemory.RepresentsFrame | Kernel/memoryManagement/buddyMemoryManager.c:118-141 | a subtree is held by its own span of memory alone |
| BuddyMemory.ClientWritesAreHarmless | Kernel/memoryManagement/buddyMemoryManager.c:114 | whatever clients write over their payloads, the tree stands |
| FreeListBlocks.SpliceTiled | Kernel/memoryManagement/freeListMemoryManager.c:86-95 | replacing blocks by others over the same span keeps the tiling |
| FreeListBlocks.TakesEnough | Kernel/memoryManagement/freeListMemoryManager.c:80-81 | in spite of the precedence slip, header and request are always covered |
| FreeListBlocks.TakesWholeBlocks | Kernel/memoryManagement/freeListMemoryManager.c:81 | the bytes taken are header and request exactly, or the next multiple of the block size above them, and when which |
| FreeListBlocks.AllocAtKeepsTiling | Kernel/memoryManagement/freeListMemoryManager.c:83-99 | taking a block keeps the tiling, and usedMemory grows by its memSize |
| FreeListBlocks.FreeAtKeepsTiling | Kernel/memoryManagement/freeListMemoryManager.c:106-121 | freeing and merging keeps the tiling, and usedMemory shrinks by the freed memSize |
| FreeListBlocks.FreeAtKeepsNoAdjacentFree | Kernel/memoryManagement/freeListMemoryManager.c:111-120 | no two free neighbours remain after a free |
| FreeListRuns.EveryRunIsSafe | Kernel/memoryManagement/freeListMemoryManager.c:60-121 | over every run blocks tile the arena, no two free ones adjoin, and what clients hold is disjoint and large enough |
| FreeListRuns.ReturningEverythingRestoresTheArena | Kernel/memoryManagement/freeListMemoryManager.c:106-121 | when all is returned the arena is again one free block behind the root header |
| FreeListMemory.MemoryManager.constructor | Kernel/memoryManagement/freeListMemoryManager.c:60-76 | the root header and one free node |
| FreeListMemory.MemoryManager.GenericAllocMemory | Kernel/memoryManagement/freeListMemoryManager.c:78-104 | first fit with split, unconditionally; the counters stay exact, and no header written reaches into a payload a client holds |
| FreeListMemory.MemoryManager.SplitNode | Kernel/memoryManagement/freeListMemoryManager.c:86-95 | the node is cut to the bytes taken and the rest becomes a free node |
| FreeListMemory.MemoryManager.GenericFreeMemory | Kernel/memoryManagement/freeListMemoryManager.c:106-121 | the arena stays tiled if and only if `prev` names the block before, a node not free, or no block; payloads stay untouched if and only if it names the block before, a node not free, or a place in no payload |
| FreeListMemory.MemoryManager.MergeWithPrev | Kernel/memoryManagement/freeListMemoryManager.c:117-120 | the tiling condition for the second merge alone |
| FreeListMemory.MemoryManager.ClientWrites | Kernel/memoryManagement/freeListMemoryManager.c:99 | clients may write anything where no header of the list is, left-over headers included |
| FreeListMemory.StaleMerge | Kernel/memoryManagement/freeListMemoryManager.c:117-120 | merging into a node that is not the predecessor loses the blocks between, unless that node heads no block any more |
| FreeListMemory.TakeKeepsPayloads | Kernel/memoryManagement/freeListMemoryManager.c:86-96 | splitting and taking a block writes into no payload |
| FreeListMemory.FreeSparesIff | Kernel/memoryManagement/freeListMemoryManager.c:106-121 | exactly when a free writes into a payload a client holds |
| FreeListMemory.StalePrevRun | Kernel/memoryManagement/freeListMemoryManager.c:86-120 | seven calls from a fresh arena after which the list no longer tiles it |
| FreeListMemory.OverwritingRun | Kernel/memoryManagement/freeListMemoryManager.c:111-120 | seven calls from a fresh arena, the last of which writes into a payload a client holds |
| FreeListMemory.SpliceRepresents | Kernel/memoryManagement/freeListMemoryManager.c:86-120 | rewriting the headers of a span splices the list they form |
| BmfsDirectory.Qsort | Bootloader/BMFS/bmfs.c:597-608 | a permutation in the comparator's order, deleted records last |
| BmfsDirectory.RepairedScanIsLowestFit | Bootloader/BMFS/bmfs.c:663-685 | the repaired scan finds the lowest place that fits, or there is none and no place fits |
| BmfsDirectory.WrittenScanAnswers | Bootloader/BMFS/bmfs.c:663-685 | as written the scan differs only where nothing fits, and then answers exactly when a stale extent leaves room |
| BmfsDirectory.ScanNeverUnderflows | Bootloader/BMFS/bmfs.c:677 | the unsigned subtraction never goes below zero, as written or repaired |
| BmfsDirectory.ScanOfDirectory | Bootloader/BMFS/bmfs.c:659-685 | all of this for the sorted copy of any safe directory |
| BmfsCreate.RecordSafeIff | Bootloader/BMFS/bmfs.c:693-706 | recording a new name keeps live files disjoint exactly when its blocks are free |
| BmfsCreate.RepairedCreate | Bootloader/BMFS/bmfs.c:610-719 | with a free slot and an unused name, create succeeds exactly when some gap fits, picks the lowest, and keeps every live file |
| BmfsCreate.WrittenCreateIff | Bootloader/BMFS/bmfs.c:610-719 | create as written keeps the directory safe and every live file if and only if neither faulty branch is taken |
| BmfsCreate.StaleExtentExample | Bootloader/BMFS/bmfs.c:683-684 | a directory on which that condition fails |
| BmfsCreate.DeleteIsSafe | Bootloader/BMFS/bmfs.c:802-821 | delete removes that file and keeps every other |
| BmfsCreate.WriteIsSafe | Bootloader/BMFS/bmfs.c:790-793 | write changes no extent and no set of live files |
| BmfsCreate.EveryRunIsSafe | Bootloader/BMFS/bmfs.c:260-821 | over every run of commands from a formatted disk live files have distinct names and disjoint extents inside the data blocks |
| Bmfs.Disk.FindEntry | Bootloader/BMFS/bmfs.c:205-231 | finds the live record of that name, or there is none before the end mark |
| Bmfs.Disk.Format | Bootloader/BMFS/bmfs.c:260-270 | every record is an end mark |
| Bmfs.Disk.Create | Bootloader/BMFS/bmfs.c:610-719 | the first free record gets the blocks that maxsize MiB need and not one more; repaired, there is no space only when no run of that many blocks is free, and else the lowest is taken; repaired, or under the exact condition, every file keeps its bytes |
| Bmfs.Disk.CountRecords | Bootloader/BMFS/bmfs.c:635-651 | counts the used records as written or repaired, and finds the first free one |
| Bmfs.Disk.ScanCopy | Bootloader/BMFS/bmfs.c:663-685 | the loop over the sorted copy is the scan |
| Bmfs.Disk.Read | Bootloader/BMFS/bmfs.c:722-751 | the j-th byte of the file is that at starting block times 2097152 plus j; nothing for a name that is not there |
| Bmfs.Disk.Write | Bootloader/BMFS/bmfs.c:754-799 | byte j goes to starting block times 2097152 plus j, and no byte outside the reserved blocks changes, nor block 0 or the last; no other record changes, and it fails exactly when the reservation is too small |
| Bmfs.Disk.Delete | Bootloader/BMFS/bmfs.c:802-821 | the first byte of the name becomes 1 and nothing else of the directory changes; every other file keeps its bytes |
| Bmfs.RoundsUp | Bootloader/BMFS/bmfs.c:615-620 | the blocks requested are the fewest of 2 MiB that hold maxsize MiB |
| Bmfs.CreatesMeans | Bootloader/BMFS/bmfs.c:610-719 | what create does, as written or repaired, in terms of names, first free record, start and size |
| Bmfs.CreateWhenRepaired | Bootloader/BMFS/bmfs.c:656-706 | no space means that every run of enough blocks is occupied; otherwise the file got the lowest free run |
| Bmfs.CreateWriteRead | Bootloader/BMFS/bmfs.c:610-799 | create, write and read in a row: a created file takes every file of up to maxsize MiB and gives it back |
| Bmfs.OtherFilesUntouched | Bootloader/BMFS/bmfs.c:784-789 | writing inside one extent leaves every other file alone |
| Bmfs.WriteEffect | Bootloader/BMFS/bmfs.c:784-791 | write then read returns the written bytes, and the directory stays safe |
| SchedulerPopulation.NextProcessBag | Kernel/interruptRelated/scheduler.c:273-307 | nextProcess conserves the processes exactly when the running one does not fall through the switch |
| SchedulerSwitch.LevelIs | Kernel/interruptRelated/scheduler.c:309-324 | which aging intervals belong to which of the six levels |
| SchedulerSwitch.SwitchedAway | Kernel/interruptRelated/scheduler.c:273-307 | BLOCKED goes last into the blocked list and does not run, YIELDED last into level 5, RUNNING last into the level of its age with that level's quantums; then the head of the first non-empty ready queue runs; nobody else changes |
| SchedulerSwitch.FallsThroughSwitch | Kernel/interruptRelated/scheduler.c:273-307 | idle, EXITED and, as written, READY join no list; idle is READY again when another runs |
| SchedulerSwitch.NextProcessAwake | Kernel/interruptRelated/scheduler.c:273-307 | nobody BLOCKED is queued as ready or dispatched |
| SchedulerSwitch.CheckBlockedSorts | Kernel/interruptRelated/scheduler.c:141-159 | exactly the BLOCKED stay, and the others join the queues of their ages in order |
| SchedulerSwitch.CheckBlockedAwake | Kernel/interruptRelated/scheduler.c:141-159 | afterwards the blocked list holds only BLOCKED processes |
| SchedulerSwitch.TickAwake | Kernel/interruptRelated/scheduler.c:107-139 | a tick keeps BLOCKED processes out of the ready queues and off the processor |
| SchedulerSwitch.RunAwake | Kernel/interruptRelated/scheduler.c:107-497 | over every run in which processes block only themselves no ready queue holds one that is BLOCKED |
| SchedulerSwitch.TickBuries | Kernel/interruptRelated/scheduler.c:161-189 | after every tick nobody in the system is EXITED |
| SchedulerSwitch.TickLeavesARunner | Kernel/interruptRelated/scheduler.c:130-134 | whoever runs after a tick is RUNNING or READY |
| SchedulerSwitch.KeepsRunning | Kernel/interruptRelated/scheduler.c:130-134 | with more than one quantum a RUNNING process runs on, with one less |
| SchedulerSwitch.GivesWay | Kernel/interruptRelated/scheduler.c:107-139 | a tick switches away who has blocked, yielded or spent its quantums, to the list for that |
| SchedulerSwitch.GivesWayAfterExec | Kernel/interruptRelated/scheduler.c:499-511 | after execve the next tick queues the process by the time since then alone |
| SchedulerSwitch.RunsItsQuantums | Kernel/interruptRelated/scheduler.c:107-139 | undisturbed, a process with q quantums is still running after any number of ticks below q |
| SchedulerFamily.GetEntryFinds | Kernel/interruptRelated/scheduler.c:542-563 | the pid search finds the one process of that pid that is running or in a list |
| SchedulerFamily.DeleteProcessIs | Kernel/interruptRelated/scheduler.c:638-659 | exactly what a deletion changes of every process: parents of its children, slots and state of its parent, nothing else |
| SchedulerFamily.UnusedIdIs | Kernel/interruptRelated/scheduler.c:400-415 | the new pid is one above the largest in use, or 3 instead of 2 |
| SchedulerFamily.ForkIs | Kernel/interruptRelated/scheduler.c:434-497 | exactly what a fork changes: the child's control block and place, and the first empty slot of its parent |
| SchedulerPopulation.CheckBlockedBag | Kernel/interruptRelated/scheduler.c:141-159 | checkBlocked conserves the processes and their states |
| SchedulerPopulation.CheckExitedStep | Kernel/interruptRelated/scheduler.c:161-189 | only EXITED processes leave, and none is running afterwards |
| SchedulerPopulation.TickPopulation | Kernel/interruptRelated/scheduler.c:107-189 | after a tick every process is in one place; all but EXITED ones survive if and only if nextProcess met a READY running process |
| SchedulerDrops.DropsReadyIff | Kernel/interruptRelated/scheduler.c:107-189 | a tick loses the running process if and only if, before it, that has one quantum left and is READY, due to be woken, or the parent of a queued exited process |
| SchedulerDrops.DropsOnlyIf | Kernel/interruptRelated/scheduler.c:107-189 | in any state nobody else is lost, and nobody for another reason |
| SchedulerDrops.RunningIsKept | Kernel/interruptRelated/scheduler.c:107-189 | who is RUNNING, not due, and has no exited child in a queue survives |
| SchedulerDrops.TickKeepsAllIff | Kernel/interruptRelated/scheduler.c:107-189 | the same condition decides whether everybody who has not exited survives |
| SchedulerDrops.DeleteTouches | Kernel/interruptRelated/scheduler.c:638-659 | what a deletion may do to any other process: a new parent, a slot emptied, READY |
| SchedulerPopulation.FirstTickDropsInit | Kernel/interruptRelated/scheduler.c:236-258 | as createInit leaves it, the first tick drops init |
| SchedulerPopulation.UnusedIdIsFresh | Kernel/interruptRelated/scheduler.c:400-415 | the pid found is nobody's, idle's included |
| SchedulerPopulation.ForkPopulation | Kernel/interruptRelated/scheduler.c:485-493 | a fork adds one process under a new pid and disturbs no other |
| SchedulerPopulation.EveryRunOnce | Kernel/interruptRelated/scheduler.c:107-497 | over every run of ticks, forks and state changes each process is in exactly one place and pids stay distinct |
| SchedulerPopulation.RunKeepsTheLiving | Kernel/interruptRelated/scheduler.c:107-497 | a process that never exits and is never dropped is there at the end of every run |
| SchedulerPopulation.RepairedRunKeepsTheLiving | Kernel/interruptRelated/scheduler.c:273-307 | with READY queued like RUNNING, who never exits is there at the end of every run |
| SchedulerWait.DispatchIsStrict | Kernel/interruptRelated/scheduler.c:285-307 | a level is served only when every lower one is empty, idle only when all six are |
| SchedulerWait.NextAdvances | Kernel/interruptRelated/scheduler.c:285-307 | nextProcess runs the head of level 0 and moves everyone behind it up |
| SchedulerWait.TickIsMoves | Kernel/interruptRelated/scheduler.c:107-139 | a tick is a sequence of the moves the waiting bound speaks of |
| SchedulerWait.BoundedWait | Kernel/interruptRelated/scheduler.c:273-354 | a process at position k of level 0 runs within k+1 calls of nextProcess whatever is inserted meanwhile |
| SchedulerAging.AgingBound | Kernel/interruptRelated/scheduler.c:107-139 | over every run with measurements up to D a process's aging interval is at most 2D plus its excess over 2^n, n the ticks that found it running |
| SchedulerAging.TickAges | Kernel/interruptRelated/scheduler.c:107-139 | over a whole tick the running process's age becomes half of it plus the interval, and nobody else's changes; idle's may become 0 |
| SchedulerAging.RunStaysYoung | Kernel/interruptRelated/scheduler.c:107-497 | over every run with measurements up to D no aging interval exceeds 2D if none did |
| SchedulerAging.ShortRunnersStayAtLevelZero | Kernel/interruptRelated/scheduler.c:309-339 | with D up to 27 nobody is queued at levels 1 to 4 in the run, and insertInQueue goes to level 0 for every process |
| SchedulerAging.LevelMonotone | Kernel/interruptRelated/scheduler.c:309-324 | the level grows with aging |
| Scheduler.Kernel.constructor | Kernel/interruptRelated/scheduler.c:204-258 | init alone at level 0, idle apart, nothing running |
| Scheduler.Kernel.Schedule | Kernel/interruptRelated/scheduler.c:107-139 | the linked queues after a call are those of one tick, or of the boot |
| Scheduler.Kernel.CheckBlocked | Kernel/interruptRelated/scheduler.c:141-159 | every woken process leaves the blocked list for the queue of its aging, in order |
| Scheduler.Kernel.CheckExited | Kernel/interruptRelated/scheduler.c:161-189 | the linked queues after the sweep are those of the specification |
| Scheduler.Kernel.SweepList | Kernel/interruptRelated/scheduler.c:164-182 | the same for one list, with its previous pointer |
| Scheduler.Kernel.NextProcess | Kernel/interruptRelated/scheduler.c:273-307 | the running process goes where its state says and the next one is dispatched |
| Scheduler.Kernel.RequeueCurrent | Kernel/interruptRelated/scheduler.c:274-283 | the switch alone |
| Scheduler.Kernel.DispatchNext | Kernel/interruptRelated/scheduler.c:285-306 | the dispatch alone |
| Scheduler.Kernel.InsertInQueue | Kernel/interruptRelated/scheduler.c:309-339 | the node is last in the queue of its level, with that level's quantums |
| Scheduler.Kernel.InsertTail | Kernel/interruptRelated/scheduler.c:341-371 | linking behind the last node appends and disturbs no other list |
| Scheduler.Kernel.Unlink | Kernel/interruptRelated/scheduler.c:148-152 | unlinking with the previous pointer removes that node and no other |
| Scheduler.Kernel.RemoveFromQueue | Kernel/interruptRelated/scheduler.c:614-636 | the first queued process of a pid is taken out, NULL exactly when there is none, and no other is lost |
| Scheduler.Kernel.GetEntry | Kernel/interruptRelated/scheduler.c:542-563 | the running process first, then the queues in order, else NULL |
| Scheduler.Kernel.UpdateTimers | Kernel/ipcRelated/timer.c:65-83 | every process that is due and not EXITED is READY |
| Scheduler.Kernel.DeleteProcess | Kernel/interruptRelated/scheduler.c:373-386 | no list changes; the children go to the parent, and the parent, if found, forgets the process and is READY |
| Scheduler.Kernel.CheckChilds | Kernel/interruptRelated/scheduler.c:650-659 | every child listed has the parent of the deleted process |
| Scheduler.Kernel.SetParentReady | Kernel/interruptRelated/scheduler.c:638-648 | the parent's slots no longer list the process, and it is READY |
| Scheduler.Kernel.UnusedID | Kernel/interruptRelated/scheduler.c:400-415 | the loop over all lists finds that pid |
| Scheduler.Kernel.SysFork | Kernel/interruptRelated/scheduler.c:434-497 | fails without effect when either allocation fails, and else forks, and lists the child in the first empty slot |
| Philosophers.NeighboursAreMutual | Userland/programs/filosopher.c:14-15 | LEFT and RIGHT undo each other and, from two up, name somebody else |
| Philosophers.TestInPlace | Userland/programs/filosopher.c:78-83 | only a hungry philosopher with no eating neighbour starts to eat |
| Philosophers.TakeForksInPlace | Userland/programs/filosopher.c:63-66 | the critical section of take_forks on the shared array: the caller eats or is HUNGRY as its neighbours say |
| Philosophers.PutForksInPlace | Userland/programs/filosopher.c:71-75 | the critical section of put_forks on the shared array: the caller thinks and hungry neighbours are fed |
| Philosophers.TakeForksFeeds | Userland/programs/filosopher.c:62-83 | whoever takes eats if neither neighbour did and else is HUNGRY; nobody else changes |
| Philosophers.PutForksFeeds | Userland/programs/filosopher.c:70-83 | whoever puts thinks; a hungry neighbour eats unless its other neighbour does, left first; nobody else changes |
| Philosophers.WhoThinks | Userland/programs/filosopher.c:62-83 | over every run exactly those think whose last critical section was put_forks |
| Philosophers.TakeForksKeepsInv | Userland/programs/filosopher.c:62-68 | taking keeps neighbours apart and every waiter blocked by a neighbour |
| Philosophers.PutForksKeepsInv | Userland/programs/filosopher.c:70-76 | putting keeps it too: whoever it unblocks starts to eat |
| Philosophers.EveryRunIsSafe | Userland/programs/filosopher.c:62-83 | for any n from 2 and any interleaving no two neighbours eat, every waiter has an eating neighbour, and if somebody waits somebody eats |
| Semaphore.Memory.Execute | Kernel/asm/semaphore.asm:16-60 | one instruction changes words and registers as the step function says |
| Semaphore.SectionIsExclusive | Kernel/asm/semaphore.asm:19-36 | nobody else is in the section, and the mutex is taken, while somebody is |
| Semaphore.StepKeepsInv | Kernel/asm/semaphore.asm:16-60 | every instruction keeps the mutex a count of who is inside and the value an account of what was added and taken |
| Semaphore.EveryRunIsSafe | Kernel/asm/semaphore.asm:16-60 | for any number of processes and any interleaving: mutual exclusion, no decrement of zero, and the value is initial plus increments minus decrements |
| Semaphore.QuietValue | Kernel/asm/semaphore.asm:16-60 | with everybody outside, the value counts exactly the operations that returned |
| Semaphore.TakenMutexIsReleased | Kernel/asm/semaphore.asm:24-36 | a taken mutex has a holder at most six of its own instructions from the release |
| Semaphore.LoneLock | Kernel/asm/semaphore.asm:16-36 | a lock alone takes one, or on a zero returns having taken nothing |
| Semaphore.LoneUnlock | Kernel/asm/semaphore.asm:47-56 | an unlock alone adds one, modulo the word, and gives the mutex back |
| Semaphore.SpinsWhileTaken | Kernel/asm/semaphore.asm:19-60 | while the mutex is taken a caller comes back to its first instruction, having changed nothing |
| Semaphore.EveryRunIsAccountedFor | Kernel/asm/semaphore.asm:16-60 | over every run each lock called has taken one, has found a zero with the mutex in hand, or is still in the routine; each unlock has added one or is still in it |
| IpcBuffers.QueueStore | Kernel/ipcRelated/bufferManagement.c:57-58 | a store at the intended index appends to the queue |
| IpcBuffers.QueueAdvance | Kernel/ipcRelated/bufferManagement.c:92-94 | a load takes the first byte, across the wrap of the 16-bit cursor too |
| IpcBuffers.ReadOneMore | Kernel/ipcRelated/bufferManagement.c:70-82 | a read goes on up to the first NUL |
| IpcBuffers.IPCBuffer.constructor | Kernel/ipcRelated/bufferManagement.c:189-191 | a new buffer is empty |
| IpcBuffers.IPCBuffer.WriteBuffer | Kernel/ipcRelated/bufferManagement.c:53-63 | appends what it accepts and returns how much, nothing unless writable |
| IpcBuffers.IPCBuffer.ReadBuffer | Kernel/ipcRelated/bufferManagement.c:65-86 | hands over the bytes before the first NUL and consumes that NUL only when alone |
| IpcBuffers.IPCBuffer.CopyFromBuffer | Kernel/ipcRelated/bufferManagement.c:88-99 | moves the front of the queue to the target in order |
| IpcBuffers.IPCBuffer.CopyToBuffer | Kernel/ipcRelated/bufferManagement.c:101-111 | appends what it accepts, none once room is left for one byte only |
| IpcBuffers.IPCBuffer.ClearBuffer | Kernel/ipcRelated/bufferManagement.c:163-169 | the buffer is empty and all NUL |
| PipeStream.WriteEffect | Kernel/ipcRelated/pipe.c:64-100 | what a write accepts, and which prefix of it arrives |
| PipeStream.ReadEffect | Kernel/ipcRelated/bufferManagement.c:65-86 | what a read leaves of data and mark |
| PipeStream.RunKeepsInv | Kernel/ipcRelated/pipe.c:64-117 | every run keeps handed over plus pending equal to delivered, in order |
| PipeStream.PipeIsAFifo | Kernel/ipcRelated/pipe.c:64-100 | a pipe is a FIFO of unbounded length; delivered is accepted exactly when every write found room; the write end is empty between calls |
| PipeStream.FullReadEndLosesData | Kernel/ipcRelated/pipe.c:73 | a run in which accepted bytes are lost |
| PipeStream.EmptyReadMeansAllRead | Kernel/ipcRelated/pipe.c:80-90 | a read returns nothing exactly when all delivered data has been read, and then takes the mark |
| PipeStream.ReadHandsOver | Kernel/ipcRelated/pipe.c:80-90 | a read hands over the front of the pending data, as much as was asked for or is there |
| PipeStream.WriteTakes | Kernel/ipcRelated/pipe.c:92-100 | a write into an empty pipe takes and delivers up to 1024 bytes |
| PipeStream.ClosedIsClosed | Kernel/ipcRelated/pipe.c:102-112 | a closed end takes nothing, hands over nothing and stays closed |
| PipeStream.CloseMarks | Kernel/ipcRelated/pipe.c:107-110 | the mark follows the data, exactly when one more byte is accepted |
| PipeStream.NulBlocksTheReader | Kernel/ipcRelated/bufferManagement.c:72-78 | a NUL with data behind it is never consumed |
| PipeStream.AsWrittenIffShort | Kernel/ipcRelated/bufferManagement.c:57 | all stores of a run as written are inside the arrays if and only if neither end stores more than 1024 bytes |
| Pipes.Pipe.constructor | Kernel/ipcRelated/pipe.c:20-44 | two empty ends, one readable and one writable |
| Pipes.Pipe.UpdateOppositeEnd | Kernel/ipcRelated/pipe.c:64-77 | empties the write end into the read end |
| Pipes.Pipe.WritePipe | Kernel/ipcRelated/pipe.c:92-100 | both ends and the count returned are those of the stream's write |
| Pipes.Pipe.ReadPipe | Kernel/ipcRelated/pipe.c:80-90 | both ends and the bytes handed over are those of the stream's read |
| Pipes.Pipe.ClosePipe | Kernel/ipcRelated/pipe.c:102-112 | both ends are those of the stream's close |
| ModuleImage.U32RoundTrip | Kernel/moduleLoader.c:28-33 | reading back four little-endian bytes gives the number modulo 2^32 |
| ModuleImage.U32IsLittleEndian | Toolchain/ModulePacker/main.c:103-108 | byte k of a stored number counts 256 to the k |
| ModuleImage.ImageLayout | Toolchain/ModulePacker/main.c:54-87 | where in the image the kernel, the count, and each size and module stand |
| ModuleImage.ForwardCopies | Kernel/lib.c:47-48 | a forward copy lands, unless the destination starts inside the source |
| ModuleImage.ForwardOutside | Kernel/lib.c:47-48 | and changes nothing else |
| ModuleImage.LoadLands | Kernel/moduleLoader.c:20-26 | loading module after module puts each at its target and spares everything else |
| ModuleImage.LoadEnds | Kernel/moduleLoader.c:10-26 | the module pointer ends just behind the last module |
| ModuleImage.ImageRoundTrip | Kernel/moduleLoader.c:10-33 | the loader undoes the packer for any kernel and modules below 2^32 bytes and any targets apart from each other and the payload |
| ModulePacker.WriteFile | Toolchain/ModulePacker/main.c:111-121 | the chunks up to end of file are the whole file, whole last chunk or not |
| ModulePacker.WriteSize | Toolchain/ModulePacker/main.c:103-108 | four bytes of the size |
| ModulePacker.SizeTruncates | Toolchain/ModulePacker/main.c:106 | they depend on its low 32 bits only |
| ModulePacker.BuildImage | Toolchain/ModulePacker/main.c:54-87 | the file written is the image of the files given |
| ModuleLoader.Memcpy | Kernel/lib.c:16-52 | word path and byte path leave the same memory on all inputs, overlapping ones included |
| ModuleLoader.WordStep | Kernel/lib.c:39-40 | one word copy is four byte copies |
| ModuleLoader.ReadUint32 | Kernel/moduleLoader.c:28-33 | the value, and the address behind it |
| ModuleLoader.LoadModules | Kernel/moduleLoader.c:10-18 | memory and pointer are those of loading that many modules |
| ModuleLoader.LoadPacked | Kernel/moduleLoader.c:10-26 | on a packed image every module is where its target says |
| Numerals.ValueOfDigits | Userland/string.c:210-214 | the digits written stand for the number |
| Numerals.DigitCharIs | Userland/string.c:210-214 | the digits are 0 to 9 and the capitals from A on |
| Numerals.DigitsIff | Userland/string.c:204-231 | they are its one notation without a leading zero |
| UserString.ReverseInPlace | Userland/string.c:219-228 | the swapping loop reverses that part and nothing else |
| UserString.LowDigits | Userland/string.c:207-214 | the do-while loop writes the digits from the least significant on |
| UserString.UintToBase | Userland/string.c:204-231 | the canonical digits and a NUL, in any base up to 36, and nothing else of the buffer |
| UserString.NumToString | Userland/string.c:157-167 | sign, digits and NUL; the number of digits is returned |
| UserString.StringToInt | Userland/lib.c:23-48 | the number the string starts with |
| UserString.DecimalRoundTrip | Userland/lib.c:23-48 | reads back every int above INT_MIN as printed |
| UserString.PrintAndRead | Userland/string.c:157-167 | the same through one buffer |
| UserString.IsHex | Userland/string.c:233-246 | exactly which strings it accepts |
| UserString.HexUpToBlankIff | Userland/string.c:236-240 | behind 0x: hexadecimal digits up to the end or the first blank |
| UserString.HexWorthIs | Userland/string.c:259-264 | what each hexadecimal digit is worth, small letters like capitals |
| UserString.StringHexToNum | Userland/string.c:248-270 | the value of the digits behind 0x, or of those between the first character and the h; 0 for what is no number |
| UserString.HexRoundTrip | Userland/string.c:248-270 | reads back 0x and the base-16 digits of every number below 2^28 |
| UserString.TrailingHReadsBackIff | Userland/string.c:253-267 | of a number's digits with an h behind them the first is lost, so that only 0 is read back |
| UserString.LeadingZeroReadsBack | Userland/string.c:253-267 | with a zero in front every number is |
| KernelString.CountDigits | Kernel/string.c:161-166 | counting by division gives the number of canonical digits |
| KernelString.FillDigits | Kernel/string.c:171-174 | filling from the end gives the canonical digits |
| KernelString.NumToString | Kernel/string.c:147-176 | the same characters as the user version when they fit, and exactly what it does when they do not |
| Strtok.RunsAreMaximal | Userland/string.c:273-321 | the tokens of successive calls are exactly the maximal delimiter-free runs |
| Strtok.RunsAreOrdered | Userland/string.c:273-321 | in order and apart |
| Strtok.Tokenizer.Strtok | Userland/string.c:273-321 | one call: the next token, cut off with one NUL, or NULL |
| Strtok.Tokenizer.SkipDelimiters | Userland/string.c:287-299 | the first loop stops at the first place that is no delimiter |
| Strtok.Tokenizer.CutToken | Userland/string.c:306-320 | the second loop cuts the token off at the first delimiter or the end |
| Strtok.Split | Userland/programs/sh.c:178-189 | calling until NULL yields all runs in order, each NUL-terminated with its characters unchanged |
| Strtok.AgainAndAgain | Userland/string.c:301-304 | after that every call returns NULL and changes nothing |

## Left out

- Hardware, interrupts, stack frames, video, keyboard, shell and games: no logic of this kind in them.
- Counters of the buddy allocator: they are never set to the arena size and adjusted twice, so that they do not track live bytes.
- `reAllocMemory` and `copyBlocks` of both allocators: the buddy version initialises its pointers from themselves.
- BuddyMemory.BuddyMemoryManager.GenericAllocMemory: as written it is proved for requests whose halving chain is good and for arenas whose stale links are NULL, which are the conditions described above; with the links cleared it is proved for every request.
- BuddyMemory.ClientWritesAreHarmless: as written it needs payload words that would be read as links to be NULL.
- The early returns of `setDescendants` at the limit of the arena: with sizes as initialised they are never taken.
- A request size of 2^64 or near it, where the additions of the free list would wrap.
- FreeListRuns.EveryRunIsSafe: is about the repaired free list; the code as written is covered one call at a time by `GenericFreeMemory`.
- BmfsCreate.EveryRunIsSafe: is about the repaired scan; the code as written is covered one call at a time by `WrittenCreateIff`.
- The bytes of the directory on the disk, flushing, `initialize`, `list` and `main` of the BMFS tool; the unused field of a record; block numbers from 2^31 up, where the comparator would truncate.
- Bmfs.Disk.Create: names of 1 to 31 bytes without NUL that do not start with the deletion mark, and sizes of at least one MiB.
- BuddyMemory.BuddyMemoryManager.constructor: arenas of 2^31 bytes and more, where the cascade of `align` ends too early, and, as written, arenas whose stale links are not NULL.
- BuddyMemory.BuddyMemoryManager.GenericAllocMemoryRec: as written it is proved for coalesced trees and good halving chains, like the call on the root.
- Free-list headers that overlap without coinciding: the model keeps them apart.
- `changePriority`: it queues the running process while it keeps running, and its levels do not match the queues.
- Blocking a queued process: it stays in its queue, and `nextProcess` ignores its state.
- Scheduler.Kernel.DeleteProcess: descriptors, allocations and the foreground process are not modelled, nor whom the second look at the timers and the closing of pipe ends wake, and a parent or child that is not found is skipped where the code would dereference NULL.
- Scheduler.Kernel.SysFork: the 32 slots for children are a sequence that grows, where the code would write behind its array.
- Scheduler.Kernel.UpdateTimers: the list of timers, their freeing, and who is blocked by hand; which processes are due is an input.
- SchedulerDrops.DropsReadyIff: says nothing of an exited child of the running process that another queued exited process names as its parent or lists as its child, where the order of the queues decides; `DropsOnlyIf` covers those states one way, and `TickPopulation` both ways on the state before the switch.
- SchedulerPopulation.EveryRunOnce: takes for granted that a fork is given the address of no live process.
- The per-philosopher semaphores, which start at 1, and the screen.
- The table of named semaphores in `sync.c`, and waiting on a semaphore.
- References from processes to buffers, waking them up, opening descriptors, and freeing a pipe once both ends are closed.
- Files the packer cannot open, and an image larger than the address space.
- ModuleLoader.LoadModules: returns the module pointer as well, which the code keeps in a local variable.
- UserString.StringHexToNum: more than seven counted digits, where an int overflows, and a number that begins with an h, where the loop would run in front of the string.
- UserString.NumToString: INT_MIN, whose negation overflows.
- `decToHex`, doubles, `printf` and `scanf`, and the string functions that neither print numbers nor cut tokens.
- Strtok.Split: the limit on the number of words and the stop at a pipe sign that the shell adds.
