# Verified model of the kernel's stateful core

This project models the algorithms of a small x86_64 kernel that carry real invariants, and proves what
they are for. Every class mirrors a C module: the same arrays and fields, the same loops, the same error
returns. Each method is proved equal to a specification function or relation, and the lemmas beside it
prove what every run of the operations keeps. Capacities (bitmap words, task slots, heap blocks, open
files, ring slots, windows, mappings) are parameters, so the results hold for every size.

| file | models |
|---|---|
| `Words.dfy`, `Wrappers.dfy`, `Sequences.dfy`, `Rings.dfy` | fixed-width integers and bitwise operators on naturals; missing values; sequences without repetitions; rings of slots |
| `Pmm.dfy` | the frame allocator: a bitmap with a cached counter refines a set of free frames |
| `Boot.dfy`, `Multiboot.dfy` | the two walks over the Multiboot2 tag stream, the boot memory sequence, and the encoder of the stream |
| `Heap.dfy`, `HeapFrames.dfy` | slab caches, buddy blocks, the coalescing pass; the heap beside the frame allocator |
| `Fat32Names.dfy`, `Fat32Volume.dfy`, `Fat32Files.dfy`, `Fat32Directory.dfy`, `Fat32Sessions.dfy` | 8.3 names, cluster chains, incremental reads, directory scans, open and close; runs of opens, reads and closes |
| `Fat32Image.dfy`, `Fat32Records.dfy` | a volume and a directory as they are written, which the readers read back |
| `Scheduler.dfy` | the linked ready queue (module `Scheduler`) and its round-robin specification (module `SchedulerSpec`) |
| `ContextSwitch.dfy` | `switch_task_context` and the initial stack frame on a register and memory machine, against coroutines |
| `Kernel.dfy` | scheduler and context switch together: runs of create, kill and yield on the machine |
| `Checksum.dfy`, `Dhcp.dfy` | the Internet checksum, the IPv4 header, the DHCP option walk |
| `WindowManager.dfy` | z-order and the render sort |
| `Spooler.dfy`, `Mouse.dfy` | the print spooler and the PS/2 mouse: rings with a producer and a consumer |
| `Vmm.dfy`, `FrameMapping.dfy` | the table of mappings and the page tables with the processor's walk; the frames that the tables map |

## Where the code does not do what one would expect

These are results of the proofs; the model follows the code, and each has its exact condition.

- A task that is created in an empty queue never starts. It becomes current while the thread that created it
  goes on running, and the next yield saves that thread over the frame of the new task. A created task starts
  at its entry point if and only if the queue was not empty at its creation, and otherwise stands for the
  thread that created it for good (`Kernel.StartsAtEntry`, `Kernel.RunsOnOneStack`). At boot this is the idle
  task (kernel.c:341): `Kernel.BootResumesItself` is that run.
- Killing the current task leaves no task current, and no operation but the creation of a task in an empty
  queue makes one current again; a returning task therefore stalls all queued ones
  (`SchedulerSpec.StallsUntilDrained`, `Scheduler.TaskQueue.ExitCurrent`). `SchedulerSpec.StalledStep` is the
  exact condition.
- `pmm_free_frame` keeps the allocator consistent if and only if the frame lies behind the bitmap words in use,
  where nothing happens, or lies below `total_frames` and is not free already
  (`Pmm.FrameAllocator.FreeFrame`). `Pmm.DoubleFree` and `Pmm.FreeBehindTotal` are the two ways to break it.
- Boot reserves the first 2 MB, and the buddy blocks of the heap begin right there. A frame above the
  reservation is apart from all memory that the heap can hand out if and only if it lies behind the last block
  (`HeapFrames.FramesApart`); with frame 512 available the first frame handed out is the start of block 0
  (`HeapFrames.FirstFrame`).
- A range visits exactly the frames below the total that share a byte with it if and only if it is empty, its
  rounded end does not wrap around 64 bits, it begins behind the last frame, or it begins in the last frame and
  that one is visited (`Pmm.VisitsExactlyWhen`). So an available entry that ends at 2^64 frees no frame
  (`Boot.WrappedEntryLost`). The frame total taken from the highest end is 0 if and only if there is none or it
  lies in the last page below 2^64 (`Pmm.NoFrames`, `Boot.LastPageLosesAll`).
- The frame allocator hands out frames that the page tables do not map: an address in a frame is translated to
  itself if and only if the frame lies below 6 GB (`FrameMapping.FrameIdentity`). With one available page there
  the first frame after boot faults (`FrameMapping.FirstHighFrame`, `FrameMapping.HighPageFaults`).
- A directory scan ends if and only if the chain of clusters is acyclic or the scan meets a slot at which it
  stops: an end marker, or for a lookup an entry with the name (`Fat32Directory.ScanEndsWhen`).
  `Fat32Directory.LoopScans` is a directory that is its own successor: its enumeration goes on for ever, and a
  lookup ends exactly when it matches.
- `write_ip_header` stores the checksum high byte first although `checksum16` loads low byte first: the
  header re-checks to zero if and only if the two bytes are equal (`Checksum.WriteIpHeader`), and
  `Checksum.WrongHeader` is a header for which it does not.
- `checksum16` gives the RFC 1071 value if and only if the plain sum fits 32 bits, or the carries out of 32
  bits are a multiple of 65535 and something is left (`Checksum.Checksum16`, `Checksum.WrapFolds`). Up to
  131074 bytes it always fits, and `Checksum.OverflowBeyond` is a message of 131075 bytes with a wrong
  checksum. The only caller passes 20 bytes (network.c:285).
- An 8.3 entry survives extraction and normalization if and only if it is canonical, and a string survives
  the other way round if and only if it is a valid 8.3 name (`Fat32Names.EntryRoundTrip`,
  `Fat32Names.StringRoundTrip`). The comparison mixes signed and unsigned characters, so a listed name is
  found again if and only if it is canonical and ASCII (`Fat32Directory.ListedNameIsFound`).
- The directory scans run over 4096 bytes whatever the cluster size: they see only what is on the disk if and
  only if a cluster has 8 sectors or the end marker lies in the first cluster (`Fat32Directory.DiskOnly`).
- `window_manager_set_focus` keeps the z-order a permutation if and only if the window is in front already
  (`WindowManager.FocusKeepsOrder`).
- `spool_print` on a full ring is not rejected: the ring grows if and only if it has a free slot and the flag
  does not say otherwise (`Spooler.PrintKeeps`). On a full ring the text goes over the message that is being
  printed and all others are lost (`Spooler.FullPrintLoses`, `Spooler.LostMessages`).

## Model

| member | source | states |
|---|---|---|
| `Pmm.TouchedIntersects` | pmm.c:57-77 | Without 64-bit wrap-around the frames that the range loops visit are exactly those below the total that share a byte with the address range |
| `Pmm.TouchedWrapped` | pmm.c:57-77 | A range whose rounded end wraps around 64 bits visits at most its first frame |
| `Pmm.VisitsExactlyWhen` | pmm.c:57-77 | The visited frames are exactly those below the total that share a byte with the range if and only if the range is empty, does not wrap, begins behind the last frame, or begins in the last frame and visits it |
| `Pmm.NoFrames` | pmm.c:30-30 | The frame total is 0 if and only if there is no memory or it ends in the last page below 2^64 |
| `Pmm.FrameAllocator.Initialize` | pmm.c:29-55 | Nothing is free, the total is the rounded-up frame count cut to what the bitmap covers, and the counter and the bits above the total are right |
| `Pmm.FrameAllocator.AddAvailableRange` | pmm.c:57-77 | The free set grows by exactly the visited frames, overlaps included, and the counter stays the population count |
| `Pmm.FrameAllocator.ReserveRange` | pmm.c:79-99 | The free set loses exactly the visited frames, and the counter stays the population count |
| `Pmm.FrameAllocator.LowestBit` | pmm.c:106-117 | The lowest set bit of a word, or 64 when none is set |
| `Pmm.FrameAllocator.AllocateFrame` | pmm.c:101-123 | Hands out the minimum of the free set and removes exactly it, or reports exhaustion exactly on an empty set |
| `Pmm.FrameAllocator.FreeFrame` | pmm.c:125-137 | The allocator stays consistent if and only if the frame exists and is not free; an index behind the bitmap changes nothing |
| `Pmm.DoubleFree` | pmm.c:125-137 | Freeing a free frame counts it twice |
| `Pmm.FreeBehindTotal` | pmm.c:130-136 | Freeing a frame behind the total that shares the last bitmap word makes it free |
| `Pmm.FrameAllocator.GetAvailable` | pmm.c:139-141 | 4096 times the cardinality of the free set |
| `Pmm.StaysOut` | pmm.c:101-137 | In every run a frame that was handed out is not free until it is returned |
| `Pmm.NoDoubleHandout` | pmm.c:101-137 | In every run two hand-outs of one frame have a return of it in between |
| `Pmm.FramesConserved` | pmm.c:101-137 | Free frames plus outstanding frames are constant over every run |
| `Boot.GetMultibootMemoryTop` | kernel.c:35-70 | The running maximum of the nested tag and entry loops is the fold over the memory map of the stream; 0 without a stream |
| `Boot.TopOverIsMax` | kernel.c:55-62 | That fold is an upper bound of all entry ends and one of them |
| `Boot.MarkMultibootMemory` | kernel.c:72-107 | Adds the frames of exactly the type-1 entries; true exactly when the stream has a memory map tag |
| `Boot.MarkOverIsUnion` | kernel.c:93-99 | A frame is free after the walk exactly when it was free before or some type-1 entry touches it |
| `Boot.AvailableBelowTop` | kernel.c:229-234 | The total frame count taken from the top address cuts off no frame of an available entry |
| `Boot.InitializeMemory` | kernel.c:229-239 | After boot the free set is exactly the frames outside the first 2 MB that the walk (or the default range without a map) visits below the computed total; without wrap-around these are exactly the frames of available entries from frame 512 on that the bitmap covers; the reported bytes are 4096 times its size |
| `Boot.WrappedEntryLost` | kernel.c:93-99 | Every available entry that ends at 2^64 frees no frame, although all frames from its first one on are available |
| `Boot.LastPageLosesAll` | kernel.c:229-234 | An entry that ends in the last page below 2^64 makes the frame total 0 |
| `Boot.FirstFrame` | kernel.c:229-239 | The first frame handed out after boot is the lowest available one above the first 2 MB |
| `Boot.OrderIrrelevant` | kernel.c:35-107 | Two memory maps with the same set of entries give the same top and the same free set, whatever the order and repetitions |
| `Multiboot.StreamReadBack` | kernel.c:35-107 | Every stream written from a list of tags is well formed, and the walk finds exactly the entries of its memory map tags, in order, and finds a map exactly when there is such a tag |
| `Multiboot.EntriesReadBack` | kernel.c:55-62 | The inner walk over the encoding of a list of entries reads that list |
| `Heap.KernelHeap.constructor` | heap.c:52-74 | The arrays after initialization are the initial heap state |
| `Heap.KernelHeap.Kmalloc` | heap.c:86-128 | The arrays and the returned address are those of the specification function |
| `Heap.CacheIsSmallest` | heap.c:91-101 | A request goes to the smallest of the caches for 16, 32, 64, 128 and 256 bytes that holds it, and to none exactly when it is larger than 256 |
| `Heap.KernelHeap.Kfree` | heap.c:130-159 | The arrays are those of the specification function |
| `Heap.KernelHeap.HeapCoalesce` | heap.c:161-175 | The blocks are those of the specification function |
| `Heap.KmallocStep` | heap.c:86-128 | Keeps the invariant; a returned region is new and the only change to the live regions; fails exactly when the cache is used up and no block is large enough, and then changes nothing |
| `Heap.KfreeStep` | heap.c:130-159 | Keeps the invariant; exactly the region at the address goes away; an unknown address changes nothing |
| `Heap.CoalesceStep` | heap.c:161-175 | Keeps the invariant and every live region, conserves the bytes in free blocks and in all blocks, and is idempotent |
| `Heap.CoalesceKeepsMemory` | heap.c:161-175 | The pass keeps the free memory byte for byte: an address lies in a free block after it exactly when it did before |
| `Heap.CoalesceFresh` | heap.c:161-175 | Coalescing the heap after boot makes a block of 2 MB out of each pair |
| `Heap.MergeStep` | heap.c:164-172 | One merge keeps the block invariant (over 1 MB only with a dead right neighbour, at most 2 MB), touches no used block and leaves no mergeable pair behind |
| `Heap.LiveDisjoint` | heap.c:52-74 | Under the invariant two different live regions, slab or buddy, do not overlap |
| `Heap.LiveInside` | heap.c:52-74 | Under the invariant every live region lies inside the heap |
| `Heap.InitialOk` | heap.c:52-74 | The initial heap satisfies the invariant and has no live region |
| `Heap.HeldIsLive` | heap.c:86-175 | After every run the regions a client holds, told only returned and freed addresses, are the live regions of the heap |
| `Heap.HeapSafety` | heap.c:86-175 | After every run from boot the held regions are pairwise disjoint and inside the heap |
| `Heap.NeverHandedTwice` | heap.c:86-128 | After every run from boot kmalloc returns no address that is held, and a region that overlaps none that is held |
| `HeapFrames.FramesApart` | heap.c:65-74 | A frame above the reserved 2 MB is disjoint from all regions of all runs of the heap if and only if it lies behind the last buddy block |
| `HeapFrames.FirstFrame` | kernel.c:229-239 | With frame 512 available the first frame handed out after boot is the start of buddy block 0, which the heap hands out too |
| `Heap.RunSafe` | heap.c:104-175 | Every run keeps the invariant, slab counts included, and what the block table lost is exactly the sum of old size minus request over its buddy allocations |
| `Fat32Names.NormalizeName` | fat32.c:133-157 | The eleven bytes are the upper-case base and extension in their padded fields |
| `Fat32Names.UpperLetters` | fat32.c:141-143 | Upper-casing changes a to z to A to Z and nothing else |
| `Fat32Names.NormalizedExample` | fat32.c:133-157 | The eleven bytes of kernel.c |
| `Fat32Names.CompareEntryName` | fat32.c:159-168 | True exactly when the entry has the normalized name and it is ASCII |
| `Fat32Names.ExtractEntryName` | fat32.c:376-397 | The buffer holds the unpadded base, a dot and the unpadded extension if any, and the terminator |
| `Fat32Names.EntryRoundTrip` | fat32.c:133-157 | Normalizing an extracted name gives the entry back if and only if the entry is canonical |
| `Fat32Names.StringRoundTrip` | fat32.c:376-397 | Extracting a normalized string gives its upper case if and only if it is a valid 8.3 name |
| `Fat32Names.ExtractedMatches` | fat32.c:159-168 | An entry matches the name extracted from it if and only if it is canonical and ASCII |
| `Fat32Volume.Volume.ReadSectors` | fat32.c:107-115 | Succeeds exactly when all sectors can be read, and then the buffer is their concatenation |
| `Fat32Volume.Volume.FollowClusterChain` | fat32.c:196-202 | The masked FAT entry, or 0 for an end of chain or a missing table |
| `Fat32Image.ClusterLbaSteps` | fat32.c:117-119 | Cluster 2 lies at the data offset and each further one the cluster size behind, modulo 2^32 |
| `Fat32Image.ClusterReadBack` | fat32.c:107-119 | Of clusters written one after the other from the data offset on, cluster k + 2 reads back as the k-th one |
| `Fat32Image.LinkReadBack` | fat32.c:121-202 | The successor of a cluster is the 28-bit link written for it, whatever the four bits above, and 0 from 0x0FFFFFF8 on |
| `Fat32Image.FileReadBack` | fat32.c:310-359 | The file behind a handle is the concatenation of the clusters written along its chain, cut at its size |
| `Fat32Files.FileTable.SkipTo` | fat32.c:325-328 | The skip loop reaches the n-th cluster of the chain |
| `Fat32Files.FileTable.Read` | fat32.c:310-359 | Delivers the longest prefix of the wanted bytes that lies in readable clusters of the chain, advances the position of this handle by its length, touches no other byte and no other handle, and reports the length, or -1 for a bad handle or a cluster that cannot be read |
| `Fat32Files.FileTable.CopyLoop` | fat32.c:330-358 | The copy loop ends on every FAT, a cyclic one included, with that outcome |
| `Fat32Files.QuotRemAreDivMod` | fat32.c:325-325 | The quotient and remainder of the model are the operators of the code |
| `Fat32Files.ReadIsSlice` | fat32.c:310-359 | On a sound file a read delivers exactly min(size, remaining) bytes, the next slice of the clusters concatenated along the chain |
| `Fat32Files.ReadsConcatenate` | fat32.c:310-359 | However reads of any sizes on any handles interleave, the bytes a fresh handle received are, concatenated, the prefix of the file it asked for, and its position is their number |
| `Fat32Directory.FindInDirectory` | fat32.c:204-236 | Finds the first matching file slot before the end marker of the flat directory, or nothing, whenever the scan ends, on a cyclic chain too; ends by the remaining extent |
| `Fat32Directory.ScanEndsWhen` | fat32.c:204-236 | A scan ends if and only if the chain is acyclic or it meets an end marker or, for a lookup, a match |
| `Fat32Directory.AcyclicScanEnds` | fat32.c:399-436 | Every scan of an acyclic chain inside the table ends, by counting clusters against table entries, also when the table is missing |
| `Fat32Directory.LoopScans` | fat32.c:204-236 | In a directory of one cluster that is its own successor a scan ends exactly when its entry matches |
| `Fat32Directory.LoopNames` | fat32.c:399-436 | There the enumeration does not end and the lookup of the listed name does |
| `Fat32Directory.SearchIsFirstVisible` | fat32.c:213-231 | What the lookup finds is the first entry of the visible list that matches, and it finds nothing only when none does |
| `Fat32Directory.EnumerateRoot` | fat32.c:399-436 | Reports name and size of exactly the visible entries in order; true exactly when the scan meets no unreadable cluster and the root cluster is at least 2 |
| `Fat32Records.ClassifyRecord` | fat32.c:414-425 | An entry written as a file is seen; one written as deleted, as a long-name part or as a volume label is skipped |
| `Fat32Records.FieldsReadBack` | fat32.c:238-240 | Name, first cluster and size of a written file entry read back |
| `Fat32Records.DirectoryReadBack` | fat32.c:399-436 | The visible list of a directory written as records and an end marker is exactly its files, in order |
| `Fat32Records.RootReadBack` | fat32.c:399-436 | Written into linked clusters of 8 sectors, every scan of it ends and sees exactly its files |
| `Fat32Records.RecordedFile` | fat32.c:299-302 | Opening a written file entry gives a handle on exactly the bytes of the chain at its first cluster, cut at its size |
| `Fat32Records.DescribeRecord` | fat32.c:427-429 | The enumeration reports the name and the size that were written |
| `Fat32Directory.ListedNameIsFound` | fat32.c:204-236 | The lookup finds a name that the enumeration reports if and only if it is canonical and ASCII |
| `Fat32Directory.ScanUnique` | fat32.c:399-436 | Neither the match of a lookup nor the visible list of an enumeration depends on the extent chosen for the scan |
| `Fat32Directory.DiskOnly` | fat32.c:205-213 | The visible list depends on the disk alone if and only if a cluster has 8 sectors or the end marker lies in the first cluster |
| `Fat32Directory.StaleEntries` | fat32.c:205-213 | Otherwise some contents of the stack show entries that are not on the disk |
| `Fat32Directory.Open` | fat32.c:287-308 | Succeeds exactly when there is a closed handle and a visible match; fills the first closed handle from the first match at position 0 and touches no other |
| `Fat32Directory.Close` | fat32.c:369-374 | Closes exactly this handle; ignores numbers out of range |
| `Fat32Sessions.SessionReads` | fat32.c:287-374 | In every interleaving of opens, reads and closes on all handles, what a handle received since its last open is the prefix it asked for of the file that the lookup of the name found |
| `Fat32Sessions.FindsFirst` | fat32.c:287-308 | That file is the first visible entry with the name |
| `Scheduler.TaskQueue.CreateTask` | scheduler.c:70-113 | Appends a task with a fresh pid to the linked queue; keeps it acyclic with the current task the only RUNNING one; a task created in an empty queue becomes current; a full table changes nothing |
| `Scheduler.TaskQueue.KillTask` | scheduler.c:115-142 | Unlinks exactly the task with the pid and clears the current task if it is that one; an unknown pid changes nothing |
| `Scheduler.TaskQueue.TaskYield` | scheduler.c:148-184 | Switches to the first READY task behind the current one round the queue, for tasks in any states; does nothing without a current task |
| `Scheduler.TaskQueue.YieldRoundRobin` | scheduler.c:148-184 | In a valid queue the yield is one step of the round robin and keeps the queue valid |
| `Scheduler.TaskQueue.ExitCurrent` | scheduler.c:38-53 | A returning task is killed, and the yield after it makes no other task current |
| `Scheduler.AddedIs` | scheduler.c:98-108 | Linking a node behind the last one keeps the queue valid and is a creation of the specification |
| `Scheduler.DroppedIs` | scheduler.c:119-136 | Unlinking any node keeps the queue valid and is a kill of the specification |
| `Scheduler.SwitchedIs` | scheduler.c:162-181 | When all others are READY the next READY task is the next node round the queue |
| `SchedulerSpec.ApplyInv` | scheduler.c:70-184 | Every operation keeps the pids distinct and the current task queued; a kill removes the pid and nothing else does; new members have new pids |
| `SchedulerSpec.KilledStaysDead` | scheduler.c:115-142 | After a kill the pid is in the queue of no later state of any run |
| `SchedulerSpec.StalledStep` | scheduler.c:98-101 | With no current task, an operation makes one current exactly when it creates a task in an empty queue with a free slot |
| `SchedulerSpec.StallsUntilDrained` | scheduler.c:130-149 | Once no task is current, none becomes current in any run that leaves some queued task alive |
| `SchedulerSpec.YieldDistance` | scheduler.c:148-184 | A yield brings a waiting task closer by exactly one |
| `SchedulerSpec.CreateDistance` | scheduler.c:98-108 | A creation pushes it back by at most one |
| `SchedulerSpec.KillDistance` | scheduler.c:115-142 | Killing another task that is not running never pushes it back |
| `SchedulerSpec.Fairness` | scheduler.c:148-184 | In every run that kills neither it nor a running task, a queued task runs within as many yields as its distance plus the creations |
| `SchedulerSpec.FairnessWithoutCreation` | scheduler.c:148-184 | With n queued tasks and no creation it runs within n - 1 yields |
| `ContextSwitch.Cpu.SwitchTaskContext` | context_switch.asm:13-37 | Memory is the old one with the six registers pushed and the stack pointer stored; stack pointer, registers and return address are those of the frame at the new stack pointer |
| `ContextSwitch.Cpu.CallSwitch` | scheduler.c:183-183 | The call at the end of the yield is a switch step of the machine |
| `ContextSwitch.Cpu.BuildFrame` | scheduler.c:87-96 | Writes the seven words of the first frame and the saved stack pointer, and nothing else |
| `ContextSwitch.NewFrame` | scheduler.c:87-96 | The frame built in C matches the pop order: entry point, empty stack, six zero registers |
| `ContextSwitch.SavedFrame` | context_switch.asm:13-23 | The pushed frame pops to the registers, return address and stack pointer of the caller |
| `ContextSwitch.StepSimulates` | context_switch.asm:13-37 | Every step, work on the own stack, creation in an empty or another queue, kill or switch, keeps the machine an implementation of the coroutines |
| `Kernel.StepAllowed` | scheduler.c:148-184 | In a valid kernel every call is a step the machine can take: the task that a yield picks has a saved frame, and the stack of a new task is unused |
| `Kernel.NextValid` | scheduler.c:70-184 | Every create, kill and yield keeps queue, threads and machine together |
| `Kernel.RunValid` | scheduler.c:70-184 | So does every run: exactly the queued tasks that are not current are suspended with a saved frame |
| `Kernel.BootValid` | scheduler.c:59-68 | The kernel at boot, with no task and the boot thread on its own stack, is valid |
| `Kernel.ResumesWhereSuspended` | scheduler.c:183-183 | In every run of creates, kills and yields a task resumes with exactly the stack pointer, return address and registers it was suspended with |
| `Kernel.StartsAtEntry` | scheduler.c:87-108 | In every run the first switch to a created task starts it at the entry point with six zero registers and an empty stack if and only if the queue was not empty at its creation |
| `Kernel.ResumesCreator` | scheduler.c:98-101 | Otherwise that switch resumes the thread that created it, where its first yield after the creation left it |
| `Kernel.RunsOnOneStack` | scheduler.c:87-108 | Whenever a task runs it is on one stack: its own, or that of its creator if the queue was empty |
| `Kernel.BootResumesItself` | kernel.c:341-357 | Two creations and two yields from boot: the second task starts at its entry, the first resumes the boot thread behind its yield |
| `Checksum.Checksum16` | network.c:144-156 | The complement of the folded 32-bit sum on every input; the RFC 1071 value if and only if the sum fits or the lost carries do no harm, as up to 131074 bytes; the folding loop ends |
| `Checksum.WrapFolds` | network.c:145-154 | The sum modulo 2^32 folds to the same value if and only if it fits, or the carries out of it are a multiple of 65535 and something is left |
| `Checksum.DeferredCarries` | network.c:145-154 | Folding the carries at the end equals carrying at every step |
| `Checksum.OddPadding` | network.c:149-151 | A message of odd length has the sum it has with a zero byte behind |
| `Checksum.RfcExample` | network.c:144-156 | The sum of the example of section 3 of RFC 1071 |
| `Checksum.NoOverflow` | network.c:145-151 | Up to 131074 bytes the 32-bit accumulator does not overflow |
| `Checksum.OverflowBeyond` | network.c:145-156 | A message of 131075 bytes whose checksum is wrong |
| `Checksum.SelfCheck` | network.c:144-156 | A message with its checksum inserted at an even offset in load order re-checks to zero |
| `Checksum.SwappedCheck` | network.c:285-287 | Inserted high byte first it re-checks to zero if and only if the two bytes are equal |
| `Checksum.WriteIpHeader` | network.c:264-288 | A receiver reads version and length 0x45, total length, protocol, time to live 64, source and destination from their places, and the checksum high byte first; no other byte changes; the header re-checks to zero if and only if the two checksum bytes are equal |
| `Checksum.HeaderReads` | network.c:265-284 | The fields read back from the header whatever its checksum bytes are |
| `Checksum.WrongHeader` | network.c:264-288 | A header whose stored checksum does not re-check to zero |
| `Dhcp.DhcpClient.ParseDhcpOptions` | network.c:418-460 | Ends on every input, reads inside the buffer only, and has the effect of the options that the buffer holds, in order |
| `Dhcp.DhcpClient.ApplyOption` | network.c:433-457 | The effect of one option with its length tests |
| `Dhcp.DecodeEncoded` | network.c:418-460 | The options read from any encoded list with pads, an end marker and anything behind it are that list |
| `Dhcp.EncodedEffect` | network.c:418-460 | Parsing an encoded list folds the options in order |
| `Dhcp.RawAddress` | network.c:418-433 | A pad 0, code, length 4 and four bytes, and the end marker 255 decode to that option |
| `Dhcp.AddressOptions` | network.c:439-453 | Options 1, 3 and 54 with a four-byte address, most significant byte first, set mask, gateway and server to its value unless a later valid one follows |
| `Dhcp.OfferOption` | network.c:434-438 | The lease counts as acquired exactly when it did before or some option 53 begins with 2 |
| `Dhcp.Address` | network.c:414-416 | The big-endian value of the first four bytes |
| `Dhcp.LastWriteWins` | network.c:433-457 | The last valid option for mask, router or server decides the field |
| `Dhcp.UnsetKeeps` | network.c:433-457 | Without a valid option the field keeps its value |
| `Dhcp.AcquiredByOffer` | network.c:434-438 | The lease counts as acquired exactly when it did before or an offer is among the options |
| `WindowManager.Manager.CreateWindow` | window_manager.c:36-59 | Adds a window in front and leaves the others alone; focus and focused flag go to it exactly when no window has the focus; a full table changes nothing |
| `WindowManager.Manager.SetFocus` | window_manager.c:61-71 | Gives the window the highest number and the focus; an unknown id changes nothing |
| `WindowManager.Manager.RaiseWindow` | window_manager.c:73-87 | Moves the numbers above the window down, gives it the highest and the focus; the focused flags stay |
| `WindowManager.Manager.LowerWindow` | window_manager.c:89-102 | Moves the numbers below the window up and gives it 0; the focused flags stay |
| `WindowManager.ApplyIsReorder` | window_manager.c:36-102 | On a permutation, creating, raising and lowering move only the target in the back-to-front list and keep the order of the others |
| `WindowManager.RunList` | window_manager.c:36-102 | After every run of creates, raises and lowers the numbers are a permutation, the inverse of the list moved along |
| `WindowManager.FocusKeepsOrder` | window_manager.c:61-71 | Setting the focus keeps a permutation if and only if the window is in front already |
| `WindowManager.RunInRange` | window_manager.c:36-102 | After every run, focus included, all numbers lie below the window count |
| `WindowManager.Manager.RenderOrder` | window_manager.c:104-119 | The sort lists every window once, back to front, for any numbers; for a permutation the result is the list itself |
| `WindowManager.SortedIsOrder` | window_manager.c:111-119 | For a permutation there is only one back-to-front listing |
| `Spooler.PrintSpooler.SpoolPrint` | services.c:214-233 | On every ring the new state is that of the specification: appended with a free slot, turned away by a stale flag, or copied over the message that is being printed |
| `Spooler.PrintKeeps` | services.c:219-232 | Keeps the ring sound; it grows by one if and only if there is a free slot and the flag does not say otherwise |
| `Spooler.FullPrintLoses` | services.c:219-232 | After a call on a full ring the new text from the old position on is left to print, or the rest of the old message behind a shorter text, and nothing else |
| `Spooler.LostMessages` | services.c:219-232 | Three messages for two slots: the first two are lost |
| `Spooler.PrintSpooler.ConsumeRound` | services.c:130-141 | Prints one character of the first message or drops the finished message and frees its slot |
| `Spooler.ConsumeMoves` | services.c:130-141 | A round moves text from the remainder to the output, loses nothing and comes one step closer to an empty queue |
| `Spooler.StreamPreserved` | services.c:126-233 | In every interleaving in which spool_print finds a free slot, output plus unprinted remainder is the concatenation of all messages, each whole or cut at the slot size, in order, and none is turned away |
| `Spooler.PrintsText` | services.c:214-233 | A text handed to an idle spooler is printed whole, up to the slot size |
| `Spooler.Drains` | services.c:130-141 | As many rounds as characters and messages left print everything |
| `Vmm.MappingTable.MapPage` | vmm.c:83-102 | Appends the mapping unless the table is full |
| `Vmm.MappingTable.UnmapPage` | vmm.c:104-119 | Removes exactly the oldest mapping of the address through the shifting loop |
| `Vmm.MappingTable.Translate` | vmm.c:121-129 | The oldest recorded physical address, or 0 |
| `Vmm.UnmapIsDequeue` | vmm.c:104-119 | Unmapping drops the oldest entry of this address's queue and leaves every other queue unchanged |
| `Vmm.RunIsFifo` | vmm.c:83-119 | In every run each virtual address has its own FIFO queue, fed by the accepted operations |
| `Vmm.RoomForAll` | vmm.c:84-87 | A table with a slot for each operation turns none away |
| `Vmm.InitializeTables` | vmm.c:59-74 | Entries 0 and 256 point to the second table, its first six entries are 1 GB pages, all others are empty |
| `Vmm.IdentityMap` | vmm.c:59-74 | The four-level walk of the installed tables is the identity below 6 GB, agrees with it through the high-half alias, and faults on every other 64-bit address |
| `FrameMapping.FrameIdentity` | vmm.c:59-74 | With the tables installed an address in a frame is translated to itself if and only if the frame lies below 6 GB |
| `FrameMapping.FirstHighFrame` | kernel.c:229-239 | With one available page right behind 6 GB the first frame handed out after boot is that page |
| `FrameMapping.HighPageFaults` | vmm.c:71-74 | That page faults |
| `Vmm.TableEntryFields` | vmm.c:67-69 | The OR of the flags into an aligned table address leaves the address and sets present |
| `Vmm.PageEntryFields` | vmm.c:71-74 | The OR of the flags into a page address leaves the address and sets present and huge |
| `Mouse.MouseDriver.EnqueueEvent` | mouse.c:50-61 | Appends to the pending events unless all slots but one are taken |
| `Mouse.MouseDriver.ProcessPacket` | mouse.c:63-72 | Enqueues the decoded packet |
| `Mouse.DecodePacket` | mouse.c:63-72 | The packet a mouse sends for an event decodes to that event: buttons in bits 0 to 2, then the two movements |
| `Mouse.PacketsOfStream` | mouse.c:74-90 | The packets of what a mouse sends are its events in order, whatever bytes without bit 3 lie between them |
| `Mouse.ClampIsNearest` | mouse.c:173-183 | The cursor goes to the nearest place on the screen |
| `Mouse.MouseDriver.PollPs2` | mouse.c:80-90 | Skips, collects or completes a packet and then enqueues it |
| `Mouse.MouseDriver.GetEvent` | mouse.c:157-190 | Returns and removes the oldest event, moves the cursor and clamps it; zeros on an empty queue |
| `Mouse.OneMoreByte` | mouse.c:80-90 | One more byte changes the packets of the whole stream exactly as the incremental framing does |
| `Mouse.Run` | mouse.c:42-190 | In every run the cursor stays within 0..79 by 0..23 and the pending events fit the ring |
| `Mouse.RunMatches` | mouse.c:42-190 | In every run the delivered events are, in order, the first of the accepted ones and the rest is pending, where an event of the framed stream or of a report is dropped exactly when the ring is full |
| `Mouse.CursorFollows` | mouse.c:167-183 | As long as the delivered movements do not lead off the screen, the cursor is the start plus the sum of dx and minus the sum of dy |
| `Mouse.NothingLost` | mouse.c:42-190 | Delivered and pending events together are all that arrived, in order, if and only if there was room whenever an event arrived |
| `Mouse.OfferedArePackets` | mouse.c:74-90 | Without USB reports the events that arrive are the packets of the byte stream |

## Left out

- Device access (port I/O, PCI, AHCI, HDA, xHCI, RTL8139, serial, timer, interrupts): the disk is a function from sector numbers to sectors that may fail, the serial port a string, the mouse port a stream of bytes.
- Mounting a FAT32 volume (boot sector, partition table, loading the FAT): the mounted volume is a value. `fat32_write` is a stub in the code.
- FAT lookups outside the loaded table: the code does not check them, so reads and scans require that the chain stays in the table; likewise at most 8 sectors per cluster, which the fixed buffers need. What lies on the stack behind a smaller cluster is a parameter of the scans.
- Directory scans that do not end: the scans require an extent in which they end; `Fat32Directory.ScanEndsWhen` says exactly when there is one.
- DHCP packet building, transaction matching, ARP and the receive ring.
- The audio half of the spooler, services, keyboard and USB character queues: the same ring shapes.
- Window geometry, titles, drawing and hit testing; owner and task names, priorities and entry pointers; all logging.
- Task pointers are slot numbers of the task table, and the machine of the context switch addresses memory in 64-bit words; stacks are assumed disjoint and large enough for a frame, as the layout in scheduler.c gives them; a thread computes without touching the stacks of suspended tasks and yields with room for a frame.
- Pids are unbounded: at most MAX_TASKS tasks are ever created, so the 32-bit counter cannot wrap.
- Heap addresses and sizes are unbounded naturals: all sums stay below 2^64 for the block counts of the code.
- Loading CR3 and flushing the TLB; `vmm_map_page` records mappings only and does not change the page tables, in the code as in the model.
- Mouse initialization commands and polling of the USB controller: a report is an input of the model.
- Boot.InitializeMemory: requires that every tag and entry that is read lies in the stream and makes progress, because the code does not check either; the characterization by available entries is stated without wrap-around, and the one by visited frames on every stream.
- Fat32Directory.EnumerateRoot: the callback is always present; its calls are returned as a list.
- Mouse.MouseDriver.GetEvent: the result pointers are always present.
- Multiboot.StreamReadBack: memory is given in words of 32 bits, and streams within 8 bytes of 4 GB are left out.
