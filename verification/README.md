# NeuxOS kernel: verified models

NeuxOS is a small x86 kernel. This project models six of its components in Dafny and proves what their code keeps over
every run: the memory manager, the scheduler, path resolution, the text monitor, formatted printing and reading ext2
files. Each component has two layers. A pure layer holds the state, the steps and the theorems. A class or method layer
keeps the loops, buffers and links of the C code and is proved equal to the pure one, step by step.
`dafny verify dfyconfig.toml` checks the whole project. Nothing here executes the kernel.

| files | component |
|---|---|
| `Frames`, `HeapSpec`, `HeapScan`, `HeapRuns`, `HeapCases`, `Heap` | page counters, `search_interspace`, `kmemalign`, `kfree`, `alloc_page` |
| `Paging`, `AddressSpaces`, `SpaceLifetime`, `SpaceRuns`, `SpaceRights`, `CloneCases`, `PageTables`, `BootPaging` | page tables, faults, clones, boot tables |
| `Lists`, `TaskQueues`, `SchedSpec`, `SchedRuns`, `Scheduler` | circular lists, task queues on them, and the scheduler over those |
| `CStrings`, `PathSpec`, `DentrySpec`, `RealPath`, `Dentries` | `strsep`, dentry cache, `dentry_abspath`, `realpath` |
| `MonitorSpec`, `Monitor` | the scrolling text monitor |
| `Buffers`, `PrintfSpec`, `Printf` | `vsprintf` |
| `Ext2Spec`, `Ext2` | ATA sector reads, the block iterator, `ext2_f_read` |
| `Wrappers` | optional values |

The main results:

- **Heap** (`HeapRuns.RunSound`, `Heap.RunLinked`, `Heap.KernelMemory.Replay`): in all states of a run of requests of any
  size the block list is ordered and disjoint between its sentinels, every 8-bit page counter is exactly the blocks on the
  page plus its other holds, and the two kinds of use never meet, if and only if each `kmemalign` passes two tests on the
  page it picks. The headers in memory are then one circular, mutually linked list, in every state.
- **The heap alone** (`HeapRuns.HeapRunInv`, `Heap.KernelMemory.ServeHeap`): from `init_heap` over free pages on, whatever
  requests of five bytes or more and releases follow, all of that holds with no test to pass, and no counter between the
  sentinels is ever above 242. For requests of all sizes `HeapRuns.HeapRunExact` leaves one test, that of the counter.
- **The heap search** (`HeapScan.OverrunExact`, `HeapScan.NeverExact`): for every request and whatever the counters are,
  exactly when `search_interspace` answers outside its gap, and exactly when it never ends.
- **Address spaces** (`SpaceRuns.MachineRunExact`, `SpaceRuns.KernelInEverySpace`, `SpaceLifetime.RoundTrip`): in all
  states of a run of creations, clones, faults, frees and heap requests of any size unrelated spaces share no user page or
  table and all counters are exact, if and only if each event passes tests on the page and the counters it meets. The
  kernel half of every space then translates as the boot loader set it up, and create, any faults, free restores the
  whole machine.
- **Rights** (`SpaceRights.CreatedRights`, `SpaceRights.ClonedRights`): in every state of such a run, every page a created
  space maps is writable and for user mode exactly if its tasks are user tasks; in a clone, exactly the slots that were
  empty in its parent are writable.
- **Scheduler** (`SchedRuns.RunExact`, `SchedRuns.OnePlace`, `SchedRuns.BoundedWaiting`, `SchedRuns.TerminatedForGood`,
  `Scheduler.NodeInOneList`): each task is in exactly one place in all states of a run, if and only if each call in it is
  legal, waits no longer than its queue position allows, and never runs again once terminated. The functions of
  `kernel/sched.c` keep this on linked nodes, one list for each queue.
- **Waking up** (`SchedRuns.WakesInTurn`, `SchedRuns.WakesAtTurn`): a task that suspends itself on a queue sleeps until
  the first resume of that queue that finds none of those left who slept there before it, and that resume makes it current.
- **Paths** (`Dentries.RealPathIsAbspath`, `DentrySpec.CacheTransparent`): the text normaliser and the cached dentry walk
  commute if and only if `getcwd` gives the normaliser a place to set out from.
- **Monitor** (`MonitorSpec.RunAgrees`, `Monitor.Video.Serve`): any characters, scrolls and switches on several monitors
  leave in each the last 64 rows of an unbounded screen that got the characters for it, in its colour.
- **Printing** (`PrintfSpec.RunMeans`): `vsprintf` yields a text if and only if that is what the format means for the
  arguments, letter by letter, with an independent reading of numerals, padding and widths.
- **ext2** (`Ext2.ReadReturnsFile`, `Ext2Spec.NumbersWritten`, `Ext2Spec.DeliversExact`): a file laid out on the disk is
  read back byte for byte, through an index block written and read as inverse functions, up to the block where the code stops.

Where the code does less than one would expect, the model keeps the code, a lemma gives the exact condition, and another
gives an input at which it fails:

| condition | failing input |
|---|---|
| `HeapSpec.AlignmentExact` | `HeapCases.DirectoryMisaligned` |
| `HeapRuns.AllocWellFormed` | `HeapCases.WrappingSizeGranted` |
| `HeapRuns.AllocExclusive` | `HeapCases.HeldPageTaken` |
| `HeapRuns.AllocSound`, `HeapRuns.RunSound`, `HeapRuns.HeapRunExact` | `HeapCases.FourByteRun` |
| `HeapScan.OverrunExact` | `HeapCases.NextOverrun` |
| `HeapScan.NeverExact` | `HeapCases.NeverEnds` |
| `AddressSpaces.CreateExact` | `CloneCases.SpaceMisaligned` |
| `AddressSpaces.CloneExact`, `SpaceRuns.MachineRunExact` | `CloneCases.CloneRun` |
| `SchedSpec.YieldExact`, `SchedRuns.RunExact` | `SchedSpec.IdleYieldsAlone` |
| `PathSpec.WalkMeaning` | `PathSpec.ClimbDropsRest` |
| `RealPath.RealPathExact` | `RealPath.DeepDirectories` |
| `PrintfSpec.DoubledPercentExact` | `PrintfSpec.DoubledPercentTakesArgument` |
| `Ext2Spec.DeliversExact` | `Ext2Spec.LongFileCutShort` |

`BootPaging.BootLinear`, `BootPaging.TablesBelowImage` and `MonitorSpec.TargetInside` are exact in the same way.

## Hypotheses

- The page of the heap's end sentinel counts as held once. `mm/kmalloc.c:131` passes a virtual address where a physical one
  is meant, so `init_heap` itself does not establish this (`Heap.EndPageNotObtained`). `Heap.KernelMemory.InitHeap` says
  that runs can start if and only if it holds, and `HeapScan.OverrunExact` what happens otherwise.
- Physical memory ends below 1 GiB minus one page, so addresses of the kernel half do not wrap.
- In runs that mix the heap with other page holders, the untested page of the first header (`mm/kmalloc.c:30-32`) is not
  held by others (`HeapRuns.Lands`); runs of the heap alone do not need this (`HeapRuns.HeapRunInv`).
- Faults come from created spaces, not from the master directory, and a not-present fault means that the walk fails.
- A space is freed while it shares no table.
- The kernel offset is the default 0xC0000000, except in `BootPaging`, where it is arbitrary.
- The idle task neither suspends nor terminates, and yields only as `SchedSpec.CanYield` allows; `SchedRuns.RunExact`
  says that runs need exactly this.
- Each scheduler function, and each locked region, is one atomic step.
- The file system does not change during lookups, names are shorter than 16 characters, the root dentry has the empty
  name, and the paths that `realpath` builds on its way fit their 255-byte buffers; the path of the working directory need
  not. Running out of memory for dentries is the parameter `room`.
- `stat` is a function from paths to existence; in `RealPath.StatNames` it is the one the file system defines.
- Printing arguments match their conversions, as `va_arg` demands; the format is the text before its null.
- Whether the drive serves a request is a function of the sector asked for, and whether a buffer for index blocks can be
  had, of their level; the interrupt flag does not change during a read.

## Model

| member | source | states |
|---|---|---|
| Frames.SubAddRange | mm/page.c:36-45 | releasing a range of pages right after obtaining it restores every 8-bit counter, wrapped or not |
| HeapSpec.FitIsLeast | mm/kmalloc.c:33-54 | the page-by-page search answers the lowest candidate address whose free run has room, and fails exactly when no candidate has |
| HeapSpec.SearchInGap | mm/kmalloc.c:26-55 | every answer lies between the end of `block` and `block->next`; all its pages after the first were free |
| HeapSpec.AlignmentExact | mm/kmalloc.c:30-50 | data is aligned as asked if and only if the alignment is at most 4 or the first header tried was taken |
| HeapRuns.TouchingBound | mm/page.c:11 | disjoint blocks of at least five bytes meet one page at most 242 times |
| HeapCases.FourByteRun | mm/kmalloc.c:57-91 | a run of 255 four-byte requests from two sentinels with exact counters: every state but the last is sound; in the last the counter of the page under 256 blocks is zero, and `alloc_page` would hand it out |
| HeapCases.WrappingSizeGranted | mm/kmalloc.c:37-38 | a request of 0xFFFFFFFF bytes is granted and breaks the list |
| HeapCases.HeldPageTaken | mm/kmalloc.c:30-38 | behind a block that fills the rest of its page, a request lands in the next page, which is held by others |
| HeapCases.DirectoryMisaligned | mm/mm.c:17-27 | kmemalign(4096, 4096) answers twelve bytes behind a page start |
| HeapCases.NextOverrun | mm/kmalloc.c:43-46 | with the page of `next` free a request is answered with a block that overlaps the header there |
| HeapCases.NeverEnds | mm/kmalloc.c:33-54 | with two free pages, before and under `next`, a larger request makes the search run for ever |
| HeapSpec.PowerTestExact | lib/misc.h:81 | the bit trick of `is_power_of_2` tells exactly the powers of two |
| HeapRuns.PickExact | mm/kmalloc.c:57-76 | a request is granted if and only if it is not empty, its alignment is zero or a power of two, and some gap has a place for it; the first such gap and in it the lowest place is taken |
| HeapRuns.PickInGap | mm/kmalloc.c:57-76 | the range `kmemalign` picks lies in the gap after the chosen block, inside memory |
| HeapRuns.AllocWellFormed | mm/kmalloc.c:57-91 | a successful `kmemalign` keeps the list ordered, disjoint and between its sentinels if and only if header plus size does not wrap 32 bits |
| HeapRuns.AllocExclusive | mm/kmalloc.c:30-46 | heap blocks stay out of pages held by others if and only if the untested page of the first header is not one of those |
| HeapRuns.PlaceCounted | mm/kmalloc.c:83-87 | raising the counters of a new block keeps every counter exact if and only if that of its first page is not at 255 |
| HeapRuns.AllocSound | mm/kmalloc.c:57-91 | for requests of every size, list, counters and exclusion are kept if and only if the counter of the picked page is not at its last value |
| HeapRuns.AllocInv | mm/kmalloc.c:57-91 | requests of at least five bytes never meet a counter at its last value and keep the whole invariant |
| HeapRuns.FreeInv | mm/kmalloc.c:98-119 | `kfree` of any live block keeps the list, the exact counters, the exclusion and the sizes |
| HeapRuns.FreeUndoesAlloc | mm/kmalloc.c:77-119 | `kfree` right after `kmemalign` restores the list and every counter |
| HeapRuns.AllocPageExact | mm/page.c:18-34 | `alloc_page` takes the lowest frame without users and gives it one; without such a frame nothing changes |
| HeapRuns.AllocPageUnused | mm/page.c:18-34 | `alloc_page` returns a frame no heap block touches and nobody holds, and keeps the invariant |
| HeapRuns.StepSound | mm/kmalloc.c:57-119 | one step of any operation with any size keeps list, counters and exclusion if and only if `kmemalign` picks an unheld page whose counter can still rise |
| HeapRuns.StepInv | mm/kmalloc.c:57-119 | each operation of heap and page allocator keeps the invariant |
| HeapRuns.RunSound | mm/kmalloc.c:57-119 | for requests of every size: all states of a run are sound if and only if each `kmemalign` in it picks an unheld page whose counter can still rise |
| HeapRuns.RunInv | mm/kmalloc.c:26-138 | runs whose requests have at least five bytes and land on unheld pages keep the invariant in every state |
| HeapRuns.HeapOnlyLands | mm/kmalloc.c:30-32 | where nobody else holds pages between the sentinels, a request of any size lands on an unheld page |
| HeapRuns.HeapRunExact | mm/kmalloc.c:57-119 | in a run of the heap alone, with requests of every size, all states are sound if and only if no request meets a counter at its last value |
| HeapRuns.HeapRunInv | mm/page.c:11 | in every state of every run of the heap alone with requests of at least five bytes the invariant holds, the sentinels have not moved, and every counter between them is the number of blocks on its page, at most 242 |
| HeapRuns.InitialState | mm/kmalloc.c:121-138 | a two-sentinel list over given counters starts a run if and only if each sentinel page counts its sentinels and nothing else |
| Heap.LinkInList | mm/kmalloc.c:77-81 | the four link writes of `kmemalign` turn one circular, mutually linked list into that list with the block inserted |
| Heap.UnlinkList | mm/kmalloc.c:114-117 | the link writes of `kfree` turn the list into the list without the block |
| HeapScan.OverrunExact | mm/kmalloc.c:26-55 | for every request and all counters: the answer lies between the first header and `next`, or there is none, if and only if the request fits there, or no free run reaches through the page of `next`, or nothing the search comes to then has room |
| HeapScan.NeverExact | mm/kmalloc.c:33-54 | the exact counters and sizes for which the loop never ends |
| HeapScan.CoverExact | mm/kmalloc.c:43-50 | a free run reaches through the page of `next` if and only if that page is free and the page before it is free or that of the header |
| HeapScan.HeldNext | mm/kmalloc.c:26-55 | with the page of `next` in use the loop is the bounded search |
| Heap.RunLinked | mm/kmalloc.c:57-138 | in every state of every run whose requests pass their tests the headers form one circular, mutually linked list, in address order, disjoint, between the sentinels |
| Heap.EndPageNotObtained | mm/kmalloc.c:121-138 | `init_heap` leaves the counter of its end sentinel's page as it was and raises that of another frame |
| Heap.KernelMemory.Scan | mm/kmalloc.c:32-54 | whatever the counters, as long as the loop ends, it computes the specified answer, around the address space if need be |
| Heap.KernelMemory.SearchInterspace | mm/kmalloc.c:26-55 | the same for a block and its successor in memory |
| Heap.KernelMemory.FindRoom | mm/kmalloc.c:68-75 | walking the linked headers finds the first block whose gap has room |
| Heap.KernelMemory.KMemAlign | mm/kmalloc.c:57-91 | on linked headers and counters: takes the abstract step, links the header in, returns its data or 0; a call that passes its tests leaves everything ready for the next |
| Heap.KernelMemory.KFree | mm/kmalloc.c:98-119 | unlinks the block, lowers its counters and leaves everything ready for the next call; 0 is ignored |
| Heap.KernelMemory.AllocPage | mm/page.c:18-34 | the scan takes the first free frame, or fails |
| Heap.KernelMemory.InitHeap | mm/kmalloc.c:121-138 | builds the two linked sentinels, the second up against the end of memory, and exactly the stated counters; the invariant holds then if and only if the pages of the end sentinel were counted once and the first free page is not one of them; nobody else holds a page between the sentinels if and only if those pages were free |
| Heap.KernelMemory.Replay | mm/kmalloc.c:57-119 | any sequence of calls from a sound state whose requests pass their tests ends linked, sound, and in the state of the run |
| Heap.KernelMemory.ServeHeap | mm/kmalloc.c:57-138 | `init_heap` and then any `kmemalign` of five bytes or more and `kfree` calls, over free pages: linked, in order, in the state of the run, every counter between the sentinels exact and at most 242 |
| Paging.FailedFaultUndone | mm/page_fault.c:36-48 | a fault that gets only one of two frames gives it back and restores every counter |
| Paging.MapPageKeeps | mm/page_fault.c:31-62 | serving a fault keeps the paging invariant; a failed one changes nothing |
| Paging.FaultMapsOnePage | mm/page_fault.c:31-62 | by the machine before it, what a served fault makes of every translation: the faulting page gets a frame that had no users, writable and with the task's right where the slot was empty, else with what the slot leaves; another space sees it exactly if it had the same table; nothing else changes |
| AddressSpaces.CreateExact | mm/mm.c:17-27 | creating a space keeps the machine invariant if and only if the heap has no block for its directory or one on a page boundary, in an unheld page whose counter can still rise |
| AddressSpaces.CreateKeeps | mm/mm.c:17-27 | the half of this that runs use |
| AddressSpaces.CreateTranslates | mm/mm.c:17-27 | a new space translates kernel addresses as the master directory and user addresses not at all; no other space changes |
| AddressSpaces.CloneExact | mm/mm.c:29-52 | a clone keeps the machine invariant if and only if creation would and, when there is a block for the directory, no counter of a shared table is at 255 |
| AddressSpaces.CloneKeeps | mm/mm.c:29-52 | the half of this that runs use |
| AddressSpaces.CloneTranslates | mm/mm.c:29-52 | a clone translates every address as its parent, user addresses read-only; all other spaces are unchanged |
| AddressSpaces.CloneCounts | mm/mm.c:34-50 | after a clone each table of the parent has exactly one user more, modulo 256; otherwise only the new directory's block counts |
| CloneCases.SpaceMisaligned | mm/mm.c:17-27 | over a heap split by one held page the first space gets a directory twelve bytes behind a page start, and the invariant is lost |
| CloneCases.CloneRun | mm/mm.c:29-52 | a run of 255 clones of one process, whose spaces `destroy_task` never frees: the invariant holds in every state but the last; there the table of all 256 spaces counts as free, and `alloc_page` would hand it out |
| CloneCases.BootKernel | boot/hd/loader.c:461-496 | the loader's tables are kernel tables from which that run can start |
| SpaceLifetime.AccessGrows | mm/page_fault.c:74-92 | an access adds only frames nobody used to the faulting space and leaves all else |
| SpaceLifetime.AccessServed | mm/page_fault.c:64-92 | after an access the address translates if and only if it did before, or it lies between the first page and the kernel and frames are left, two where the slot is empty |
| SpaceLifetime.CountersDetermined | mm/page.c:11-16 | under the invariant, blocks and holds determine every counter |
| SpaceLifetime.RoundTrip | mm/mm.c:17-85 | create, any number of accesses, failing ones included, then free: block list, counters, other spaces and tables are as before |
| SpaceRuns.Isolation | mm/mm.c:17-27 | two spaces not related by clone share no user table and no user frame, and no mapped frame is a table |
| SpaceRuns.FreeKeeps | mm/mm.c:54-85 | freeing an unshared space keeps the machine invariant for the rest |
| SpaceRuns.EventExact | mm/mm.c:17-85 | every event leaves the kernel tables alone, and keeps the invariant if and only if it passes its tests; faults and frees always do |
| SpaceRuns.MachineRunExact | mm/mm.c:17-85 | all states of a run of creations, clones, accesses, frees and heap requests of every size satisfy the invariant if and only if each event passes its tests |
| SpaceRuns.MachineRun | mm/page_fault.c:64-119 | in every state of such a run the invariant holds and kernel addresses of every space translate as the master directory did at the start |
| SpaceRuns.BootInv | mm/page.c:47-74 | the machine with the loader's kernel tables, no other table and no address space satisfies the invariant, so runs can start there |
| SpaceRuns.KernelInEverySpace | boot/hd/loader.c:461-496 | from the boot tables on, in every space of every run, kernel addresses translate to themselves minus the offset, writable, kernel only |
| SpaceRights.WritableOver | mm/page_fault.c:49-61 | over any run in which a space lives, a page it maps is writable if and only if its slot was empty at the start or writable then |
| SpaceRights.CreatedRights | mm/page_fault.c:31-62 | in every state of every run, every page of a space made by `alloc_page_table` is writable as long as the space lives, and for user mode exactly if the tasks of its family are user tasks |
| SpaceRights.ClonedRights | mm/mm.c:39-50 | in every state of every run, exactly the pages of those slots of a clone are writable that were empty in its parent when it was made |
| PageTables.Spaces.TakePage | mm/page.c:18-34 | `alloc_page` of the kernel's counters: the first free frame, counted and held |
| PageTables.Spaces.MapPageAt | mm/page_fault.c:31-62 | the in-place code refines the pure fault step, success and failure |
| PageTables.Spaces.AllocPageTable | mm/mm.c:17-27 | on the linked heap: 0 and no change when the heap has no block; else one more space, over a block of its own, that translates kernel addresses as the master directory and user addresses not at all; the invariant is kept if and only if the block for the directory can be used |
| PageTables.Spaces.CloneSlots | mm/mm.c:39-50 | the loop over 1024 entries makes the read-only copy and raises each shared table once |
| PageTables.Spaces.ClonePageTable | mm/mm.c:29-52 | on the linked heap, refines the pure clone; the invariant is kept if and only if the block for the directory can be used and no shared counter is at 255 |
| PageTables.Spaces.FreeSlot | mm/mm.c:65-82 | one slot releases the frames of its table and then the table, each exactly once |
| PageTables.Spaces.FreePageTable | mm/mm.c:54-85 | the nested loops refine the pure release of a space; directory 0 is ignored |
| BootPaging.BootWalk | boot/hd/loader.c:461-496 | the two-level walk over the boot tables: kernel slots linear from physical zero, the first megabyte to itself, nothing else |
| BootPaging.BootRights | boot/hd/loader.c:461-496 | no entry of the boot directory or its tables is for user mode; the temporary table is the first page behind the kernel image and not writable at either level |
| BootPaging.BootLinear | check.c:20-22 | every address from the offset on translates to itself minus the offset if and only if the offset is 4 MB aligned |
| BootPaging.TablesBelowImage | Kconfig:22-23 | the tables end at or before the kernel image if and only if the offset is at least 3 GiB |
| BootPaging.Loader.SetupPage | boot/hd/loader.c:461-496 | the nested loops build exactly the boot tables, from any memory |
| Lists.Init | lib/list.h:14-18 | an initialised head is the empty list |
| Lists.Last | lib/list.h:22-23 | the walk for the tail ends at the head's `prev` |
| Lists.AddTail | lib/list.h:20-28 | appends; links stay mutual and circular |
| Lists.Del | lib/list.h:32-38 | removes the node at its position and clears its links |
| Lists.Dequeue | lib/list.h:65-70 | takes the first node, or null from the empty list |
| Lists.Count | lib/list.h:54-61 | counts the nodes |
| TaskQueues.Relinked | lib/list.h:20-70 | relinking one queue leaves every other list in memory as it was |
| TaskQueues.QueueSet.Push | lib/list.h:20-28 | appends a task by its node; all queues stay circular lists of distinct nodes |
| TaskQueues.QueueSet.Pop | lib/list.h:65-70 | takes the first task, found around its node, or none |
| TaskQueues.QueueSet.Drop | lib/list.h:32-38 | takes a task off whichever queue its node is on |
| SchedSpec.SetupInv | kernel/sched.c:246-256 | the start state, idle both current and queued, satisfies the invariant |
| SchedSpec.YieldExact | kernel/sched.c:148-165 | a yield keeps the invariant if and only if it is not the idle task yielding to an empty queue or, before the first tick, with other tasks queued behind itself |
| SchedSpec.YieldRotates | kernel/sched.c:148-165 | processor and queue together turn by one place, the idle task standing in for an empty queue; nothing else changes |
| SchedSpec.IdleYieldsAlone | kernel/sched.c:148-165 | after set-up and one tick a yield of the idle task leaves it both current and queued |
| SchedSpec.DrainInv | kernel/sched.c:137-146 | the draining loop terminates, empties the term queue and touches nothing else |
| SchedRuns.StepInv | kernel/sched.c:111-219 | every scheduler function keeps the invariant |
| SchedRuns.StepExact | kernel/sched.c:111-219 | a call of any scheduler function keeps the invariant if and only if it is legal: no task is started twice, only started tasks not yet destroyed are terminated, and the idle task neither suspends nor is terminated nor yields out of turn |
| SchedRuns.RunInv | kernel/sched.c:111-219 | the invariant holds in every state of every run |
| SchedRuns.RunExact | kernel/sched.c:111-219 | all states of a sequence of calls satisfy the invariant if and only if each call is legal |
| SchedRuns.OnePlace | kernel/sched.c:111-219 | a started, not destroyed task is in exactly one of current, running, one wait queue, term, and its state names which |
| SchedRuns.IdleOnce | kernel/sched.c:255-256 | idle is current and queued at once only before the first tick; it never waits and is never terminated |
| SchedRuns.StepMoves | kernel/sched.c:148-219 | no step moves a queued task back; each switch moves it one place forward or onto the processor |
| SchedRuns.BoundedWaiting | kernel/sched.c:148-219 | a task at position k becomes current within any run of k+1 switches in which it is not terminated |
| SchedRuns.LinesUp | kernel/sched.c:111-219 | in every state of every run from `sched_setup` the current task and the running queue are one line that the calls alone determine: next in line runs, the idle task when there is none; who yields or is interrupted goes to the end |
| SchedRuns.SleepersWait | kernel/sched.c:167-197 | in every state of every run from `sched_setup` each wait queue holds exactly the tasks that the calls left asleep on it, in the order they came |
| SchedRuns.WakesInTurn | kernel/sched.c:167-197 | a suspended task is neither current nor queued until it is terminated or until the first resume of its queue that finds none of those left who slept there before it; that resume makes it current, whatever other calls come between |
| SchedRuns.WakesAtTurn | kernel/sched.c:184-197 | with k tasks asleep before it, none of them terminated, it becomes current at the resume number k+1 of its queue and not before |
| SchedRuns.ResumeHands | kernel/sched.c:184-197 | a resume makes the first waiter current, queues the interrupted task last, and moves no queued task; without a waiter nothing changes |
| SchedRuns.TerminatedForGood | kernel/sched.c:124-146 | a terminated task is never again current, runnable or waiting; destroyed tasks stay destroyed, each once |
| SchedRuns.TickDestroys | kernel/sched.c:199-219 | a tick destroys exactly the terminated tasks, none of which is then current, queued or listed |
| SchedRuns.Books | kernel/sched.c:111-146 | in every state of every run term queue, destroyed tasks and task list are those the calls say: destroyed in order of termination, listed in order of start |
| Scheduler.SchedSetup | kernel/sched.c:246-256 | builds the linked queues and the task list of the start state |
| Scheduler.NodeInOneList | kernel/sched.c:111-219 | the node of every started task, but for the current, idle and destroyed ones, is linked into exactly one list, one that its state names |
| Scheduler.Kernel.TaskStart | kernel/sched.c:111-122 | on linked nodes: lists the task and queues it at the tail; keeps all lists and the invariant |
| Scheduler.Kernel.YieldCpu | kernel/sched.c:148-165 | on linked nodes: processor and queue turn by one place; the invariant is kept exactly when `SchedSpec.YieldExact` says |
| Scheduler.Kernel.TaskSuspend | kernel/sched.c:167-181 | moves the current task to a wait queue and switches; keeps the invariant |
| Scheduler.Kernel.TaskResume | kernel/sched.c:184-197 | the first waiter of the queue becomes current and the interrupted task goes to the tail of the running queue; an empty queue changes nothing; keeps the invariant |
| Scheduler.Kernel.TaskTerm | kernel/sched.c:124-135 | unlinks the task's node from whichever queue it is on and links it into the term queue; keeps the invariant |
| Scheduler.Kernel.TaskSched | kernel/sched.c:199-219 | requeues the current task, switches, and drains the linked term queue, counting it each time around; keeps the invariant |
| CStrings.Strpbrk | lib/string/strpbrk.c:3-15 | the first position holding an accepted character, or none |
| CStrings.Strsep | lib/string/strsep.c:3-15 | cuts the text at its first delimiter in place: token before, rest after, nothing else changed |
| PathSpec.JoinTokens | lib/string/strsep.c:3-15 | splitting loses nothing: joining the tokens gives the text back |
| PathSpec.TokensJoin | lib/string/strsep.c:3-15 | clean tokens come back from their joined text |
| PathSpec.WalkMeaning | fs/dentry.c:14-24 | the walk has the usual meaning of `..` if and only if the path never climbs above the root or its rest leads back there |
| PathSpec.ClimbDropsRest | fs/dentry.c:23 | "/../a" resolves to the root even where "/a" exists |
| PathSpec.WalkExists | fs/dentry.c:10-55 | every place the walk reaches exists and has clean names |
| DentrySpec.LookupInv | fs/dentry.c:10-55 | a lookup keeps the cache a tree with distinct sibling names and only extends it |
| DentrySpec.CachedInode | fs/dentry.c:27-50 | every cached entry has the inode its names lead to through the inode operations alone |
| DentrySpec.LookupIsWalk | fs/dentry.c:10-55 | a cached lookup returns the entry the walk over names reaches and fails where it fails, unless memory runs out |
| DentrySpec.LookupCached | fs/dentry.c:27-32 | looking up the names of a cached entry returns that entry and adds nothing |
| DentrySpec.VfsLookupIsWalk | fs/fs.c:260-286 | for every text: one of 255 or more characters fails; another leads from the root or the working directory to the entry the walk over its names reaches, and fails where that fails, unless memory runs out |
| DentrySpec.NamesDistinct | fs/dentry.c:27-50 | no two entries have the same names from the root |
| DentrySpec.VfsLookupAbsolute | fs/fs.c:260-286 | looking up a cached entry's absolute path, as text, returns that same entry and leaves the cache alone |
| DentrySpec.RunCache | fs/fs.c:260-286 | after any run of lookups the cache invariant holds and every entry has the right inode |
| DentrySpec.CacheTransparent | fs/dentry.c:10-55 | resolving through the cache gives the inode that the inode operations alone give |
| RealPath.StatNames | lib/c/realpath.c:44-46 | `stat` succeeds on the text of names if and only if they exist |
| RealPath.LoopIsWalk | lib/c/realpath.c:34-47 | the token loop follows the dentry walk, and leaves its buffer if and only if the walk climbs above the root |
| RealPath.RealPathExact | lib/c/realpath.c:11-52 | where the walk fails so does `realpath`; where it arrives, `realpath` answers that place if and only if the path is absolute, or that of the working directory fits with a byte to spare, or it fits down to the parent and the path goes up first |
| RealPath.DeepDirectories | kernel/task.c:287-290 | sixteen directories deep "." resolves to the parent's path and a separator, for `errno` stays 0; seventeen deep, to nothing |
| RealPath.CutBack | lib/c/realpath.c:38 | the backward loop finds the last separator |
| RealPath.Realpath | lib/c/realpath.c:11-52 | the loop over `strsep` tokens in a copied buffer computes the specified result |
| Dentries.DentryCache.DentryLookup | fs/dentry.c:10-55 | the recursive code, cutting its buffer in place, refines the pure lookup |
| Dentries.DentryCache.LookupPath | fs/fs.c:260-286 | `vfs_lookup` on a copied path refines the pure one |
| Dentries.DentryCache.SearchUp | fs/dentry.c:87-109 | writes the path down to the parent if and only if it fits |
| Dentries.DentryCache.Abspath | fs/dentry.c:111-126 | the absolute path if it fits with a byte to spare; else an error with `errno` if the part down to the parent does not fit, and one without, with that part in the buffer, if it does |
| Dentries.DentryCache.TaskGetcwd | kernel/task.c:284-296 | every failure returns `errno`, so the one without it passes for success |
| Dentries.RealPathIsAbspath | kernel/task.c:284-296 | for a path that stays below the root and whose texts fit: `realpath` fails where lookup fails, and where lookup finds an entry it answers its absolute path, "/" for the root, if and only if it sets out from the right place |
| MonitorSpec.PutAgrees | drivers/monitor/monitor.c:86-116 | one character keeps the 64-row buffer equal to the last 64 rows of an unbounded screen |
| MonitorSpec.RunAgrees | drivers/monitor/monitor.c:70-116 | so does every run of characters |
| MonitorSpec.OpenedShows | drivers/monitor/monitor.c:118-126 | whatever `monitor_init` finds in video memory, there is a screen that agrees with it |
| MonitorSpec.TargetInside | drivers/monitor/monitor.c:88-101 | a character is written inside its own monitor if and only if it is not a backspace at position 0; that one hits the cell before, or the last of the 16-bit range |
| Monitor.Video.ShiftUp | drivers/monitor/monitor.c:70-84 | moves the rows of one monitor up and blanks the last, no other cell changes |
| Monitor.Video.PutChar | drivers/monitor/monitor.c:86-116 | refines the buffer step; of the monitor only cursor and window change, the window to the first row start that shows the cursor, in the foreground only; no other monitor, cell or register changes |
| Monitor.Video.ScrollUp | drivers/monitor/monitor.c:128-135 | one row back, not past the start |
| Monitor.Video.ScrollDown | drivers/monitor/monitor.c:137-144 | one row on, only while the cursor lies below the window |
| Monitor.Video.Switch | drivers/monitor/monitor.c:146-158 | exactly one foreground, its window moved to the first row start that shows the cursor, both shown by the hardware registers; nothing else of any monitor changes |
| Monitor.Video.Serve | kernel/tty.c:69-152 | any characters for any monitors, scrolls and switches: each buffer takes the characters for it, in order, all in the monitor's own colour, and nothing else |
| PrintfSpec.DigitsValue | lib/stdio/printf.c:12-157 | printing and reading digits are inverse in radix 10 and 16 |
| PrintfSpec.ShownReads | lib/stdio/printf.c:12-157 | whatever flags and width, a %d field reads back as a signed number, %u in radix 10, %x and %X in radix 16, %p after 0x |
| PrintfSpec.NumeralUnique | lib/stdio/printf.c:12-157 | there is one numeral for a number in given digits, and it is the one printed |
| PrintfSpec.FieldDReads | lib/stdio/printf.c:12-52 | whatever flags and width, a %d field reads back as its argument, the least integer included, and has exactly the larger of width and natural length |
| PrintfSpec.ConvertShows | lib/stdio/printf.c:222-252 | by letter: %d and %u print the decimal numeral, %x and %X the hexadecimal one in small or capital letters, %p that after 0x, %s the string, %c the character; '-' puts spaces behind, '0' zeros between prefix and digits, else spaces come before |
| PrintfSpec.ShowsConvert | lib/stdio/printf.c:222-252 | no other text is such a field |
| PrintfSpec.ReadDirective | lib/stdio/printf.c:194-221 | flags and width of every directive are read whole, the width in 16 bits |
| PrintfSpec.RunMeans | lib/stdio/printf.c:182-261 | for every well-formed format and all arguments: `vsprintf` yields a text if and only if the format means it, literals and fields in order |
| PrintfSpec.DoubledPercentTakesArgument | lib/stdio/printf.c:253-255 | "%%d" takes an argument: the directive stays open |
| PrintfSpec.DoubledPercentExact | lib/stdio/printf.c:198-258 | "%%" stands for a percent sign for all arguments if and only if only text without percent signs, flags, digits and conversion letters follows |
| Printf.IntLen | lib/misc.h:43-50 | the number of digits |
| Printf.PutDigits | lib/stdio/printf.c:12-52 | digits written from the last back are the digits of the number, nothing else changes |
| Printf.PutNumber | lib/stdio/printf.c:12-157 | the loops of the four number conversions write exactly the specified field |
| Printf.PutString | lib/stdio/printf.c:159-180 | the string field, padded left or right |
| Printf.Vsprintf | lib/stdio/printf.c:182-261 | reads the format once and never past its end; the buffer gets the specified text and a null; returns its length |
| Ext2Spec.ContentsPrefix | fs/ext2/ext2.c:301-313 | fewer blocks of a file are a prefix of more |
| Ext2Spec.NumbersWritten | fs/ext2/ext2.c:184-187 | a block is the little-endian writing of 256 numbers if and only if those are the numbers read from it |
| Ext2Spec.LaidOutReads | fs/ext2/ext2.c:239-265 | a file of up to 268 blocks laid out in direct blocks and an index block has exactly these blocks, in order |
| Ext2Spec.ThirteenthBlock | fs/ext2/ext2.c:163-188 | such a file of thirteen blocks: the index block holds 7, and the last block is block 7 |
| Ext2Spec.DeepLooked | fs/ext2/ext2.c:190-237 | past the single indirect level the block looked up is that of a file whose single indirect block is the quotient of the offset, whatever the inode names |
| Ext2Spec.LookedIsMapped | fs/ext2/ext2.c:163-212 | the iterator follows the file's block map through the single indirect level and finds nothing at the first double indirect block |
| Ext2Spec.DeliversExact | fs/ext2/ext2.c:190-265 | a read delivers a prefix of what is due, and all of it if and only if file or request ends within 268 blocks |
| Ext2Spec.LongFileCutShort | fs/ext2/ext2.c:211 | there is a disk and a file for which the read is cut short |
| Ext2.Registers | drivers/harddisk/harddisk.c:132-135 | the four address registers together hold the low 28 bits of the sector number |
| Ext2.Drive.ReadOneSector | drivers/harddisk/harddisk.c:53-73 | stores exactly the first `size` bytes of the sector, odd or even, and consumes all of it |
| Ext2.Drive.DoReadSync | drivers/harddisk/harddisk.c:75-89 | consecutive sectors, cut at `size`; a timeout stores nothing |
| Ext2.Drive.DoReadAsync | drivers/harddisk/harddisk.c:91-105 | the same bytes, all sectors consumed |
| Ext2.Drive.HdRead | drivers/harddisk/harddisk.c:107-141 | the same bytes in both modes; an error and an unchanged buffer for count 0, for a busy drive, and, when polling, for one that never gets ready |
| Ext2.Drive.ReadBlock | fs/ext2/ext2.c:63-73 | the first `size` bytes of a block, nothing else changes |
| Ext2.BlockIter.IterL1 | fs/ext2/ext2.c:163-188 | the block that the index block names at the offset, with each error case |
| Ext2.BlockIter.IterL2 | fs/ext2/ext2.c:190-212 | loads an index block and then uses the offset's quotient as a block number |
| Ext2.BlockIter.IterL3 | fs/ext2/ext2.c:214-237 | the same one level up |
| Ext2.BlockIter.Next | fs/ext2/ext2.c:239-265 | what one call stores for each level, hole and error, and where the index goes |
| Ext2.ReadDelivers | fs/ext2/ext2.c:301-313 | without errors the buffer holds exactly the first min(count, blocks × 1024) bytes of the first 268 blocks in logical order, nothing past them changes, and that number is returned |
| Ext2.ReadReturnsFile | fs/ext2/ext2.c:301-313 | without errors, reading a file laid out in up to 268 blocks returns the first min(count, length) bytes of it |
| Ext2.FRead | fs/ext2/ext2.c:301-313 | for every pattern of failing requests: the read stops at the first block that cannot be had, does not exist, or is not needed; the buffer holds what fits of the blocks before it, and their length or the error is returned |

## Left out

- Boot assembly, port I/O beyond the data port, interrupt stubs, task switching, system calls and user programs: hardware and foreign calls.
- Sleep queue, `simplock`, ring buffers, keyboard, tty, shell, floppy, logging, descriptor tables: outside the chosen core or only easy members.
- Reference counts of dentries and files, mount and unmount, devfs: reference-count plumbing around the path core.
- Freeing a space that was cloned: `clone_page_table` raises only table counts while `free_page_table` also lowers leaf counts.
- Heap completeness: the search does not join a free run with the partial page before the next block; `HeapSpec.FitIsLeast` states what it does find.
- Directory search, inodes and superblock of ext2: only the file read path is modelled.
- Task numbers and resources of a task: a task is a value, and destroying it is listing it as destroyed.
- Dentry objects: `Dentries` keeps them as an indexed sequence that only grows, without aliasing of C pointers.
- Heap.KernelMemory.Scan: asks that the loop ends; `HeapScan.NeverExact` says exactly when it does not.
- Heap.KernelMemory.SearchInterspace: the same.
- Heap.KernelMemory.KMemAlign: asks that header plus size does not wrap 32 bits; what happens otherwise is `HeapRuns.AllocWellFormed`.
- HeapRuns.RunInv: asks for requests of at least five bytes; `HeapRuns.RunSound` gives the exact condition for all sizes.
- HeapRuns.HeapRunInv: the same; `HeapRuns.HeapRunExact` gives the exact condition for all sizes.
- Heap.KernelMemory.ServeHeap: the same, and an end page that counts once, as `Heap.KernelMemory.InitHeap` explains.
- AddressSpaces.CreateKeeps: one half of `AddressSpaces.CreateExact`.
- AddressSpaces.CloneKeeps: one half of `AddressSpaces.CloneExact`.
- SpaceLifetime.RoundTrip: asks for a block that creation can use, exactly when `AddressSpaces.CreateExact` says.
- PageTables.Spaces.FreePageTable: spaces that share no table; the others are the line on cloned spaces above.
- RealPath.Realpath: asks that the text is not popped past its start, where the code reads before its buffer; `RealPath.LoopIsWalk` says when.
- Monitor.Video.PutChar: asks for no backspace at position 0, where the code writes outside the monitor; `MonitorSpec.TargetInside` is exact.
- PrintfSpec.RunMeans: widths of 65536 and more only behind a flag; without one the code can take a zero in them for the flag.
- Monitor.Video.Serve: no backspace at position 0, as for `Monitor.Video.PutChar`; the colour of a monitor is fixed meanwhile.
- SpaceRights.CreatedRights: for the user right, the tasks that fault in a space and its clones are of one kind.
- Printf.PutNumber: one method for the four number conversions, which differ in prefix, radix and letters only.
- Scheduler.SchedSetup: the nodes embedded in a task are objects of their own, made when it is started; `container_of` is a map.
- Ext2.FRead: a request that fails once would fail again; an interrupt that never comes makes the driver wait for ever, which is not modelled.
