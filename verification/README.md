# A model of the xk kernel's cores and of three of its user programs

This project models the parts of an xv6-derived x86-64 teaching kernel whose correctness rests on
mutable state, linked structures or interleaving, and proves what they promise, for every input,
every reachable state or every run. Loops, in-place updates and linked structures of the C code are
methods and classes; each is proved against a function on values, and the theorems are about those
functions and about the runs built from them.

| part | files | main results |
|---|---|---|
| virtual memory | `Mmu`, `Kalloc`, `PageTable`, `Teardown`, `FreeTables`, `PageTableRuns`, `VSpace`, `VRegions`, `HeapGrowth`, `Cow`, `CowFrames` | from a zeroed root every sequence of mappages and walkpml4 calls gives a tree without sharing that is a flat page map (`PageTable.MapFlat`, `PageTableRuns.MapsFromZero`); after an invalidation pages translate exactly as the regions say (`VSpace.TranslatesIff`); teardown frees what a page-by-page scan frees, exactly when no address is stuck (`Teardown.DeallocEndsIff`); copy-on-write reads like eager copying over all runs from all states (`Cow.CowRunsReadLikeEager`) and loses no frame (`CowFrames.AllGivenBack`); over any sequence of calls sbrk covers exactly the heap, the rebuilt page table shows it, and no frame is both in the heap and in the tables (`VRegions.VRegion.Sbrk`, `HeapGrowth.SysSbrk`, `HeapGrowth.SbrkCalls`) |
| buffer cache | `BufferList`, `BufferRing`, `BufferCache`, `QueuedCache` | in every interleaving bread returns the last bytes written, with the disk answering at once or through the queue (`BufferCache.BreadReturnsLastWritten`, `QueuedCache.QueuedBreadReturnsLastWritten`); the recycled buffer is the least recently used (`BufferCache.VictimIsLeastRecent`) |
| disk drivers | `Disk`, `DiskRuns` | the interrupt-driven queue refines the synchronous driver (`DiskRuns.RefinesSynchronous`), a read returns the last completed write to its drive and block number (`DiskRuns.ReadsLastWrite`), and each caller gets its answer exactly if the drive has not failed (`DiskRuns.ReturnsAnswer`) |
| processes | `Procs`, `ProcRuns` | no process sleeps in wait over a zombie child, parents are alive, pids are reaped once (`ProcRuns.TableSafe`, `ProcRuns.ReapedOnce`); sleep meets wakeup and exit meets wait (`ProcRuns.SleepWakeRun`, `ProcRuns.ExitWaitRun`) |
| sleep locks | `SleepLocks` | mutual exclusion, no lost wakeup and no lock-up of contenders in every interleaving (`SleepLocks.MutualExclusion`, `SleepLocks.Progress`) |
| pipes | `Pipe`, `PipeRuns` | which wakeups are lost (`PipeRuns.NoLostWakeup`); bytes come out in order and belong to the calls that moved them (`PipeRuns.BytesInOrder`, `PipeRuns.CallsEnd`); the pipe is freed once and when nobody uses it (`PipeRuns.FreedAlone`) |
| files | `ExtentFiles` | writes read back and touch nothing else (`ExtentFiles.WriteThenRead`, `ExtentFiles.WriteLeaves`); growth is recorded, of the inode file too (`ExtentFiles.GrowthRecorded`, `ExtentFiles.GrowthOfInodeFile`) |
| allocator | `FreeList`, `Malloc` | the free list stays one ordered, coalesced cycle and is determined by the live blocks (`Malloc.FreeDetermined`) |
| shell | `ShellGrammar`, `ShellSyntax`, `ShellPrinting`, `ShellParser`, `ShellWords` | the parser accepts exactly the lines of a grammar, with their meaning (`ShellSyntax.Language`), whatever the white space (`ShellPrinting.PrintedLine`); parsing undoes printing (`ShellPrinting.RoundTrip`); every word ends up as its own C string (`ShellWords.WordsEnded`) |
| grep | `Regex` | match decides membership in the pattern's language (`Regex.Match`) |

`dafny verify dfyconfig.toml` checks everything. `Options` holds the option type the modules share.

Where the code does not do what it promises, the model keeps the code, names an input or a family of
inputs, and states the exact condition:

- `PGADDR` joins its fields by OR, so a carry into an odd neighbour is lost. `find_next_possible_page`
  then does not advance, and `deallocuvm` loops for ever exactly if such an address lies in its range
  (`Teardown.DeallocEndsIff`); for `freevm` that means: a page directory at 1 GB or 3 GB whose last
  table is missing (`FreeTables.FreevmEndsIff`). A process with one page at 1 GB is such an input
  (`PageTableRuns.OnePageHangsFreevm`, and on a machine of eight frames `PageTableRuns.SmallHangs`).
  In terms of regions: after an invalidation it ends exactly if the regions have no page in
  [1 GB, 2 GB) or one in its last 2 MB, and the same of [3 GB, 4 GB) (`VSpace.FreevmEndsAfter`). exec
  puts the stack right below 2 GB (kernel/exec.c:25-26), so a process that exec has set up with all
  its regions below 2 GB is torn down (`VSpace.ExecLayoutEnds`); the hang needs another layout, such
  as entries that the guest system sets in an application's table (kernel/guest.c:334).
- `cow_vspacecopy` also marks pages that were read-only, and the fault handler then makes them
  writable: it agrees with an eager copy exactly if the space has no read-only page
  (`Cow.CowCopyShows`). `vspacecopy` does not copy the copy-on-write mark, so the child sees what its
  parent sees exactly if no page is waiting for a copy-on-write fault (`Cow.VspaceCopySameIff`).
  Nothing in the repository calls `cow_vspacecopy`; fork uses `vspacecopy`.
- A call of `sys_sbrk` that runs out of memory leaves the pages it has added as used records behind
  the end of the heap (`VRegions.LeftoverRecord`). A later successful call overwrites the first of
  them without freeing their frames; afterwards the used records are exactly the pages of the heap if
  and only if the new end has reached the last of them (`VRegions.VRegion.Sbrk`).
- `sys_sbrk` keeps the heap's end in an `int`: from 2 GB on a call fails, or, when the end wraps at
  4 GB, succeeds without adding a page (`VRegions.VRegion.Sbrk`).
- `morecore` passes its byte count to sbrk as an `int`: from 2^32 - 31 bytes on it asks for 0 or 16
  bytes and claims the whole size (`Malloc.CoreHonestIff`, `Malloc.HugeRequest`).
- All thirty buffers start with device 0, block 0, so that one key has several buffers
  (`BufferList.BootDuplicates`, `BufferCache.StepKeepsUnique`).
- `kill` also finds free slots (pid 0, or the pid a failed fork leaves behind), and `allocproc` does
  not clear the mark, so the next child is born killed (`ProcRuns.KillCleanIff`,
  `ProcRuns.KillMarksFreeSlot`).
- `holdingsleep` does not look at the process: it is right about its caller exactly if no other
  process holds the lock (`SleepLocks.HoldingSleepIff`). It is wrong in a run of two processes
  (`SleepLocks.HoldingSleepWrong`), and right for every caller that holds the lock
  (`SleepLocks.HolderAnswered`).
- A writer that has been killed and finds the pipe full returns without the wakeup. A reader asleep
  is then left asleep over a full pipe (`PipeRuns.LostWakeup`); a sleeping reader has reason to sleep
  exactly if no writer has left by that branch since the readers were last woken or the pipe last
  emptied (`PipeRuns.NoLostWakeup`), in particular as long as nobody is killed
  (`PipeRuns.NoKillNoLoss`).
- `ideintr` marks a buffer valid also when the drive has failed, and does not look at errors of
  writes: the result is the synchronous one exactly if the drive has not failed or buffer and block
  were equal before (`Ide.FinishedIsSync`, `DiskRuns.ReturnsAnswer`, `DiskRuns.FailedRead`).
- `>>` is read and opened exactly like `>` before any text that does not begin with a third `>`,
  which is never accepted (`ShellPrinting.AppendIsOverwrite`, `ShellPrinting.AppendLine`).

Concurrency is modelled as atomic steps: a step is what one process does between two lock
operations, or one step of sleep or wakeup. Memory is a sequence of frames of 512 words; integers
are unbounded, and widths are written out where the code wraps or truncates. Results of kalloc come
from the modelled core map; what sbrk returns, uninitialised bytes and the scheduler's choices are
parameters.

## Model

| member | source | states |
|---|---|---|
| Mmu.EntryRoundTrip | inc/mmu.h:63-103 | an entry built by PTE gives back its frame, its present bit, its writable bit and its user bit |
| Mmu.PgAddrSum | inc/mmu.h:99-101 | PGADDR is the sum of its five fields when none of the lower four overflows |
| Mmu.PgAddrCarryPdpt | inc/mmu.h:99-101 | index 512 one level down is lost under an odd PML4 index and carries under an even one |
| Mmu.PgAddrCarryPd | inc/mmu.h:99-101 | the same one level below |
| Mmu.LostCarry | inc/mmu.h:99-101 | a concrete address: behind 0x7fe00000 comes 0x40000000 |
| Kalloc.FirstAvailable | kernel/kalloc.c:164-173 | the first available frame, none before it is available |
| Kalloc.CountersExact | kernel/kalloc.c:96-171 | the free-page counter stays exact across a kalloc that finds a frame, and across a kfree exactly if the frame was not free; used plus free is constant across both |
| Kalloc.Machine.Kalloc | kernel/kalloc.c:155-178 | takes the lowest available frame with reference count 1 and changes no other frame and no memory, or fails, with none available, and the counters moved |
| Kalloc.Machine.Kfree | kernel/kalloc.c:96-126 | drops one reference, or frees the frame and fills it with bytes of 2 when it was the last; no other frame changes |
| PageTable.SlotsDistinct | kernel/x86_64vm.c:58-100 | two addresses reach the same PTE slot iff they are on the same page iff all four indices agree |
| PageTable.GraftKeepsTree | kernel/x86_64vm.c:68-75 | hanging a new zeroed table keeps the tables a tree without sharing |
| PageTable.GraftKeepsEntries | kernel/x86_64vm.c:68-97 | a new table changes the translation of no address |
| PageTable.StoreIsFlatUpdate | kernel/x86_64vm.c:153-156 | storing a PTE changes the flat page map at that page and nowhere else |
| PageTable.WalkDownGrows | kernel/x86_64vm.c:66-97 | the descent only adds tables, hangs each by an entry that grants writing and user access, finds the path it was asked for, and changes nothing without alloc |
| PageTable.WalkGrows | kernel/x86_64vm.c:58-100 | walkpml4 keeps the tree, every translation and what every table grants, grants everything by new tables, and returns the slot of the address |
| PageTable.Descend | kernel/x86_64vm.c:66-86 | one level of the walk, in place; a new table grants writing and user access |
| PageTable.WalkPml4 | kernel/x86_64vm.c:58-100 | the walk in place: new memory and slot as specified |
| PageTable.MapOneFlat | kernel/x86_64vm.c:149-159 | one round of mappages is one update of the flat map; each failure has its cause |
| PageTable.MapFlat | kernel/x86_64vm.c:142-165 | mappages maps exactly the pages of its range and leaves all other translations; if the tables granted everything they still do, and the processor grants each page what its entry says; it fails only for lack of frames, a page present in the range, or a frame out of range |
| PageTable.MapOnePage | kernel/x86_64vm.c:149-159 | one round in place |
| PageTable.MapPages | kernel/x86_64vm.c:142-165 | the loop of mappages in place |
| PageTable.AccessIsLeaf | kernel/x86_64vm.c:66-97 | what the processor grants an address, writing and user access being the conjunction over the four levels, is what its leaf entry says when the tables on the way grant everything |
| PageTable.AccessSame | kernel/x86_64vm.c:58-100 | it depends on the table pages only |
| PageTable.EffectOpen | kernel/x86_64vm.c:74-96 | mappages and walks keep the tables granting everything, also where there were none |
| PageTable.MappedAccess | kernel/x86_64vm.c:142-165 | so after mappages a page of the range is granted exactly its permissions, every other address what it was |
| PageTable.MapOwners | kernel/x86_64vm.c:158-159 | for user mappings the core map records every frame of the range as the user's at the address of its page, and no other frame gets another owner |
| PageTableRuns.ZeroRootTree | kernel/x86_64vm.c:170-177 | a zeroed root is a tree of one table that maps nothing |
| PageTableRuns.CallFlat | kernel/x86_64vm.c:58-165 | a call of mappages, a walk with alloc, or a walk with a store to its slot keeps the tree; the walk changes no translation, the store one page |
| PageTableRuns.MapAllFlat | kernel/x86_64vm.c:58-165 | a sequence of such calls keeps the tree and makes their updates of the flat map one after the other |
| PageTableRuns.MapsFromZero | kernel/x86_64vm.c:58-165 | every table reached from a zeroed root by mappages and walkpml4 calls is a tree, two addresses share a slot iff they share a page, translation is the flat map the calls describe, and the processor grants what that map says |
| Teardown.NextAddress | kernel/x86_64vm.c:198-227 | the address behind an absent subtree is the end of the subtree, or not beyond the start exactly if the address is stuck |
| Teardown.FindNextPossiblePage | kernel/x86_64vm.c:198-227 | computes that address; its panic is unreachable after a failed walk |
| Teardown.NaiveScan | kernel/x86_64vm.c:242-256 | the page-by-page scan keeps the machine valid |
| Teardown.RoundRefinesScan | kernel/x86_64vm.c:243-256 | one round moves forward and leaves the scan's result unchanged unless the address is stuck |
| Teardown.DeallocTerminates | kernel/x86_64vm.c:233-258 | without stuck addresses the loop ends with the memory the page-by-page scan leaves |
| Teardown.DeallocDiverges | kernel/x86_64vm.c:233-258 | with a stuck address in range no number of rounds ends the loop |
| Teardown.DeallocEndsIff | kernel/x86_64vm.c:233-258 | the loop ends iff no address of the range is stuck, and then agrees with the scan |
| Teardown.ScanClears | kernel/x86_64vm.c:243-256 | after the scan no page of the range translates and every other page translates as before |
| Teardown.ScanDropsRefs | kernel/x86_64vm.c:248-254 | a frame loses as many references as present pages of the range name it, and is freed at zero |
| Teardown.DeallocRound | kernel/x86_64vm.c:243-256 | one round in place |
| Teardown.DeallocUvm | kernel/x86_64vm.c:233-258 | deallocuvm in place leaves what the page-by-page scan leaves, for any start and sizes |
| FreeTables.FreesSubtree | kernel/x86_64vm.c:260-284 | freeing a table frees exactly the tables below it, each once |
| FreeTables.FreevmPgdir | kernel/x86_64vm.c:260-271 | freevm_pgdir in place |
| FreeTables.FreevmPdpt | kernel/x86_64vm.c:273-284 | freevm_pdpt in place |
| FreeTables.Freevm | kernel/x86_64vm.c:289-302 | freevm in place: the scan of the low 4 GB, then every table and the root |
| FreeTables.FreevmFreesTables | kernel/x86_64vm.c:294-301 | after the scan freevm frees exactly the frames of the tree |
| FreeTables.StuckBelow4G | kernel/x86_64vm.c:220-224 | the stuck addresses below 4 GB are those of the last table of the directories at 1 GB and 3 GB when it is absent |
| FreeTables.FreevmEndsIff | kernel/x86_64vm.c:289-302 | freevm ends iff the directories at 1 GB and 3 GB are absent or have their last table |
| PageTableRuns.OnePageMaps | kernel/x86_64vm.c:142-165 | mapping one page at 1 GB into a fresh table works with four free frames and makes a directory whose last table is missing |
| PageTableRuns.OnePageHangsFreevm | kernel/x86_64vm.c:289-302 | the failing input: such a table is set up without failure and no number of rounds ends its teardown |
| PageTableRuns.SmallHangs | kernel/x86_64vm.c:289-302 | the same for a concrete machine of eight frames |
| VSpace.Perms | kernel/vspace.c:21-30 | the PTE flags carry the descriptor's present and writable bits and always the user bit |
| VSpace.ListMappedFlat | kernel/vspace.c:262-272 | mapping distinct absent pages one by one gives the flat map of the whole list |
| VSpace.CutEntries | kernel/vspace.c:252-259 | freeing the user tables removes every user translation and keeps all others and the tree |
| VSpace.InvalidateRebuilds | kernel/vspace.c:244-273 | invalidation keeps a tree, fails only for lack of frames or a bad frame number, and rebuilds exactly the pages of the regions; no frame in use outside the tables is touched or becomes a table, and the new tables can be freed again |
| VSpace.TranslatesIff | kernel/vspace.c:244-273 | afterwards the processor grants the user a page with a frame and a permission iff a region spans it and its descriptor is present with them |
| VSpace.EntryIff | kernel/vspace.c:244-273 | the same of the leaf entry; every present user entry has the user bit |
| VSpace.NewTablesGrant | kernel/vspace.c:252-272 | the user tables that invalidation builds take no permission away |
| VSpace.TableIff | kernel/vspace.c:252-272 | afterwards a user table is there iff a region has a page under it |
| VSpace.FreevmEndsAfter | kernel/x86_64vm.c:289-302 | on a rebuilt table freevm ends iff the regions have no page in [1 GB, 2 GB) or one in its last 2 MB, and the same of [3 GB, 4 GB) |
| VSpace.ExecLayoutEnds | kernel/exec.c:25-26 | with all regions below 2 GB and the stack right below it, freevm ends |
| VSpace.MapRegion | kernel/vspace.c:268-271 | the inner loop in place |
| VSpace.MapRegions | kernel/vspace.c:261-272 | the outer loop in place |
| VSpace.VspaceInvalidate | kernel/vspace.c:244-273 | vspaceinvalidate in place |
| VRegions.IndexOfPage | kernel/vspace.c:10-19 | the record index is the page's distance from the base, upwards or downwards |
| VRegions.SharedRecordIff | kernel/vspace.c:10-19 | two addresses share a record iff they share a page |
| VRegions.VRegion.Append | kernel/vspace.c:355-361 | a new chunk adds records and changes none |
| VRegions.VRegion.Advance | kernel/vspace.c:353-364 | the next chunk, made if missing, or failure only when no frame is left |
| VRegions.VRegion.Find | kernel/vspace.c:339-367 | the chunk list acts as a flat array: the record of an index, in place |
| VRegions.VRegion.Store | kernel/vspace.c:85-88 | one record changes |
| VRegions.VRegion.ZeroedFrame | kernel/vspace.c:77-80 | kalloc and memset: a frame that was free, zeroed, no frame in use touched; fails only when none is free |
| VRegions.VRegion.AddPage | kernel/vspace.c:77-88 | a zeroed, fresh frame in the record of one page with the given present and writable bits and the old copy-on-write mark, all other records unchanged |
| VRegions.VRegion.AddMap | kernel/vspace.c:64-91 | fresh distinct frames for exactly the pages of the range, in order, or for a first part of them when it fails; failure only above the kernel base or without frames; the size comes back cut to an int |
| VRegions.VRegion.AddLow | kernel/sysproc.c:51-55 | below 2 GB the call of sbrk keeps the used records a first part of all, on distinct frames that are old or were free, and overwrites no page of the heap |
| VRegions.VRegion.AddHigh | kernel/sysproc.c:51-55 | from 2 GB on it fails, or adds nothing when the end wraps |
| VRegions.VRegion.AddHeap | kernel/sysproc.c:49-55 | the call of vregionaddmap with the end of the heap passed through an int, at every end |
| VRegions.VRegion.Commit | kernel/sysproc.c:56 | only the size changes |
| VRegions.VRegion.Sbrk | kernel/sysproc.c:42-56 | a successful call below 2 GB adds exactly the missing pages, on frames that were free, and leaves exactly the pages of the heap iff no failed call went beyond its end; a failed one means no frame is left; no call touches the pages of the heap as it was |
| VRegions.LeftoverRecord | kernel/vspace.c:77-82 | the failing case: with one free frame a call for two pages fails and leaves a used record behind the end |
| VRegions.HeldGrows | kernel/vspace.c:76-89 | new frames inside or right behind the used records keep them a first part of all, on distinct frames |
| VRegions.NewHeapCovered | kernel/vspace.c:42-54 | an empty heap is covered by no pages, the base case of sbrk |
| VRegions.SbrkRange | kernel/sysproc.c:44-54 | how the heap's end survives the conversion to int and back |
| VRegions.HeapEndAt2G | kernel/sysproc.c:44-54 | a heap end of 2 GB becomes an address above the kernel base |
| VRegions.SbrkPages | kernel/vspace.c:76 | the pages added are the difference of the rounded-up sizes |
| VRegions.VRegion.ReadOut | kernel/vspace.c:339-367 | the records of the chunk list, in order |
| HeapGrowth.LookupIsRecord | kernel/vspace.c:10-19 | the descriptor the rebuild looks up for an address is the record of its index in the chunk list |
| HeapGrowth.AllocationKeepsTree | kernel/kalloc.c:155-178 | allocating frames changes no page table, no translation and nothing the processor grants |
| HeapGrowth.ShownByRebuild | kernel/vspace.c:244-273 | after a rebuild every address of the heap translates to what its record says and to nothing else |
| HeapGrowth.FreshSound | kernel/vspace.c:42-54 | a process with an empty heap satisfies the invariant of sbrk |
| HeapGrowth.NewFramesClear | kernel/vspace.c:77-88 | frames newly given to the heap hold no table |
| HeapGrowth.HeapSurvives | kernel/vspace.c:252-272 | the rebuild leaves the frames of the heap in use, distinct and out of the tables |
| HeapGrowth.Rebuild | kernel/vspace.c:244-273 | the rebuild with the heap among disjoint regions never maps a page twice, shows the heap when it succeeds, touches no frame in use outside the tables, and leaves tables that can be freed |
| HeapGrowth.SysSbrk | kernel/sysproc.c:42-62 | sys_sbrk with its rebuild keeps the invariant, failing or not: used records on distinct frames in use, tables that can be freed, no frame in both; a failed call leaves what the processor grants every address, after a successful one the page table shows the grown heap |
| HeapGrowth.SbrkCalls | kernel/sysproc.c:42-62 | any sequence of calls: the page table shows the heap, the invariant holds, and if none fails the used records are exactly the pages of the heap |
| Cow.CowCopyKeeps | kernel/vspace.c:437-487 | reference counts equal the number of descriptors naming each frame, and a free frame is named by none, also after cow_vspacecopy |
| Cow.FaultKeeps | kernel/trap.c:93-108 | the same after a handled write fault, and every page of every space reads as before |
| Cow.FaultGrants | kernel/trap.c:95-104 | after the fault exactly pages that were writable or marked are writable |
| Cow.CowCopyShows | kernel/vspace.c:437-487 | the copy agrees with an eager copy iff the space has no read-only page |
| Cow.ReadOnlyBecomesWritable | kernel/trap.c:95-97 | a read-only page of a copied space is writable after a write fault |
| Cow.StoreShows | kernel/trap.c:93-108 | a store through a fault changes one word of one page of one space |
| Cow.DropKeeps | kernel/kalloc.c:96-126 | unmapping a page keeps the counts and every other page's contents |
| Cow.ExitShows | kernel/kalloc.c:96-126 | the exit of a space leaves all other spaces reading as before |
| Cow.ExtendedKeeps | kernel/vspace.c:77-88 | a new page keeps the counts and every other view, and reads as zeros |
| Cow.ExtendedShows | kernel/vspace.c:77-88 | so it is the eager one |
| Cow.StepShows | kernel/vspace.c:472-487 | with every page writable or marked, each operation is the eager one as far as any space can read or write |
| Cow.CowRunsLikeEager | kernel/vspace.c:387-487 | with every page writable or marked, every run of copies, stores, exits, new spaces and new writable pages shows each space the eager contents and permissions |
| Cow.StepReads | kernel/vspace.c:437-487 | from any state, each copy, exit, new space, new page and store to a page that was writable is the eager one as far as any space can read, and takes no permission away |
| Cow.CowRunsReadLikeEager | kernel/vspace.c:437-487 | from any state, read-only pages or not, every run of such operations reads like the eager run and keeps the counts exact |
| Cow.BuiltFromNothing | kernel/vspace.c:42-54 | so does every run that starts with no space at all |
| Cow.SmallRun | kernel/vspace.c:437-487 | a concrete run: a page, a copy, a store by the copy, and two different views |
| Cow.CopiedPageKeeps | kernel/vspace.c:404-416 | copying one page gives it a private frame with the same contents |
| Cow.VspaceCopyShows | kernel/vspace.c:387-435 | vspacecopy gives the child the parent's contents, minus the copy-on-write marks, and changes no other space |
| Cow.VspaceCopySameIff | kernel/vspace.c:387-435 | the child sees what its parent sees iff the parent has no page waiting for a copy-on-write fault |
| Cow.AddressSpaces.CowVspaceCopy | kernel/vspace.c:453-467 | the marking loop in place |
| Cow.AddressSpaces.PageFault | kernel/trap.c:93-108 | the fault branch in place |
| Cow.AddressSpaces.CopyPage | kernel/vspace.c:404-416 | one round of the copy loop in place |
| Cow.AddressSpaces.VspaceCopy | kernel/vspace.c:387-435 | the copy loop in place; it fails only when no frame is left |
| CowFrames.FaultConserves | kernel/trap.c:93-108 | a write fault gives back the old frame with its last reference and loses none |
| CowFrames.StepConserves | kernel/vspace.c:387-487 | no copy, store, exit, new space or new page changes which frames are in use without being a page: none is lost, none of the kernel's is taken |
| CowFrames.RunConserves | kernel/vspace.c:387-487 | so in every run |
| CowFrames.AllGivenBack | kernel/kalloc.c:96-126 | when every process of a run that started with none has given up its pages, exactly the frames are free that were free at the start |
| CowFrames.CopiedPageConserves | kernel/vspace.c:404-416 | the same for a page of vspacecopy |
| BufferList.Hit | kernel/bio.c:69-77 | the scan finds a buffer with the key, or there is none |
| BufferList.Victim | kernel/bio.c:79-92 | the backward scan finds a clean unused buffer, or there is none |
| BufferList.Bget | kernel/bio.c:64-94 | the buffer returned holds the key; the list order is unchanged |
| BufferList.Initial | kernel/bio.c:44-59 | the list after binit |
| BufferList.BootDuplicates | kernel/bio.c:52-58 | after binit every buffer has key (0, 0) |
| BufferList.BrelseKeepsValid | kernel/bio.c:129-141 | brelse keeps the list a permutation of the buffers |
| BufferRing.Bcache.constructor | kernel/bio.c:44-59 | binit builds a well-formed ring of all buffers in the initial order |
| BufferRing.Bcache.InsertFront | kernel/bio.c:53-57 | linking behind the head, both directions |
| BufferRing.Bcache.InsertAll | kernel/bio.c:52-58 | the loop of binit |
| BufferRing.Bcache.Remove | kernel/bio.c:133-134 | unlinking, both directions |
| BufferRing.Bcache.FindCached | kernel/bio.c:69-77 | the forward scan over the ring |
| BufferRing.Bcache.FindUnused | kernel/bio.c:82-92 | the backward scan over the ring |
| BufferRing.Bcache.Assign | kernel/bio.c:84-87 | one buffer's fields change, the ring does not |
| BufferRing.Bcache.Bget | kernel/bio.c:64-94 | bget on the ring |
| BufferRing.Bcache.MoveFront | kernel/bio.c:133-138 | relinking moves one buffer to the front of the order |
| BufferRing.Bcache.Brelse | kernel/bio.c:129-141 | brelse on the ring |
| BufferRing.MovedRing | kernel/bio.c:133-138 | the ring still holds each buffer once, in the moved order |
| BufferCache.StepKeepsCounted | kernel/bio.c:64-142 | reference counts and sleep locks agree with the handles in every interleaving |
| BufferCache.StepKeepsUnique | kernel/bio.c:64-94 | one buffer per block, key (0, 0) excepted |
| BufferCache.StepKeepsCoherent | kernel/bio.c:96-119 | a valid buffer without unwritten changes equals its disk block |
| BufferCache.StepKeepsLoaded | kernel/bio.c:96-106 | what bread returns is valid |
| BufferCache.StepKeepsRecency | kernel/bio.c:121-142 | the list is ordered by when buffers last became unused |
| BufferCache.StepKeeps | kernel/bio.c:44-142 | every action of every handle keeps all of these |
| BufferCache.IdentityFixed | kernel/bio.c:82-90 | a buffer keeps its block while anyone refers to it |
| BufferCache.RunKeeps | kernel/bio.c:44-142 | the invariants hold after every run |
| BufferCache.BreadReturnsLastWritten | kernel/bio.c:96-119 | bread returns the last bytes written to the block, as a plain map of blocks would |
| BufferCache.HandleGoesOn | kernel/bio.c:96-142 | every handle can take its next step, except that it waits for the sleep lock iff another has it, and does not release changes that it has not written |
| BufferCache.SavesModified | kernel/bio.c:108-119 | what a holder stores in its buffer is what bwrite puts on the disk, under the key it asked for |
| BufferCache.VictimIsLeastRecent | kernel/bio.c:79-93 | bget recycles the least recently used clean unreferenced buffer and panics iff there is none |
| QueuedCache.BgetClean | kernel/bio.c:64-94 | bget chooses the same buffer whether or not it sees the dirty bits of buffers in the disk queue |
| QueuedCache.PlainSim | kernel/bio.c:64-142 | a step outside iderw is the same step of the cache over an immediate disk |
| QueuedCache.RequestSame | kernel/ide.c:141-151 | entering iderw is invisible to that cache |
| QueuedCache.IntrSim | kernel/ide.c:100-126 | the interrupt is its step of bread or bwrite that reaches the disk |
| QueuedCache.ReturnSame | kernel/ide.c:153-158 | returning from iderw is invisible to it |
| QueuedCache.EventKeeps | kernel/bio.c:64-142 | every event keeps the invariant of cache and queue together |
| QueuedCache.EventsKeep | kernel/bio.c:64-142 | so does every run |
| QueuedCache.QueuedBreadReturnsLastWritten | kernel/bio.c:96-119 | over the queued disk, in every interleaving, bread returns the last bytes written to the block |
| QueuedCache.DirtyIsSafe | kernel/bio.c:82-90 | a dirty buffer is in the disk queue, and a buffer in the queue is referred to and locked, so it is not recycled |
| DiskSpec.Sync | kernel/memide.c:47-54 | buffer and block agree afterwards, all other blocks are unchanged |
| DiskSpec.SamePlace | kernel/memide.c:47 | two buffers are for the same place iff the low bit of the device and the block number agree |
| MemIde.MemDisk.IdeRw | kernel/memide.c:35-55 | the synchronous driver in place: a dirty buffer's data goes to the block of its number, any other gets that block's data |
| Ide.PortsExact | kernel/ide.c:86-90 | a drive reads out of the four ports the drive bit of the device and the sector |
| Ide.StartSelects | kernel/ide.c:71-97 | the command acts on the place in the ports, writes iff the buffer is dirty, and two buffers give the same port values iff drive and block number agree |
| Ide.Driver.Enqueue | kernel/ide.c:141-151 | the buffer goes to the end of the linked queue; the drive starts iff it was idle |
| Ide.Driver.Interrupt | kernel/ide.c:99-126 | the head of the queue is completed, as the synchronous driver would unless the drive has failed, and the next one started |
| Ide.FinishedIsSync | kernel/ide.c:112-119 | a completion is the synchronous answer iff the drive has not failed or buffer and block were equal |
| DiskRuns.IntrSyncs | kernel/ide.c:110-119 | the interrupt answers the head's own request, or leaves data and disk alone after a failure |
| DiskRuns.StepKeeps | kernel/ide.c:71-159 | every step keeps the queue, the log and the disk consistent |
| DiskRuns.RunKeeps | kernel/ide.c:71-159 | so does every run |
| DiskRuns.RefinesSynchronous | kernel/ide.c:71-159 | requests finish in the order issued, the head is active, nothing is queued twice, the disk is what synchronous requests in that order leave, those the drive has failed left out |
| DiskRuns.ReturnsAnswer | kernel/ide.c:153-158 | iderw returns with the answer to its own request, the synchronous one iff it was a write, or the drive has not failed, or the data agreed before |
| DiskRuns.AnswerIs | kernel/ide.c:112-119 | the same for every completion of a run |
| DiskRuns.FailedRead | kernel/ide.c:112-119 | a run in which iderw returns bytes that are not on the disk |
| DiskRuns.HoldsLastWritten | kernel/ide.c:71-159 | every block holds the data of the last completed write to its drive and number, or what it held first |
| DiskRuns.ReadsLastWrite | kernel/ide.c:71-159 | so a read of device and block number returns that, in every run |
| DiskRuns.ReadsBack | kernel/ide.c:71-159 | a write is read back as long as no other write to the same drive and block number has completed, whatever else has |
| DiskRuns.ReturnLeaves | kernel/ide.c:153-158 | a holder that returns can use its buffer for the next request; nothing else changes |
| DiskRuns.MovesUp | kernel/ide.c:110-123 | every interrupt moves each request up, and the drive is active whenever one waits |
| Procs.FirstUnused | kernel/proc.c:59-61 | the first free slot |
| Procs.FirstZombie | kernel/proc.c:268-272 | the first zombie child |
| Procs.FirstPid | kernel/proc.c:520-521 | the first slot with the pid |
| Procs.ProcTable.AllocProc | kernel/proc.c:53-71 | the first free slot becomes an embryo with the next pid |
| Procs.ProcTable.Wakeup1 | kernel/proc.c:461-469 | exactly the sleepers on the channel become runnable, with all their other fields; every other slot is unchanged |
| Procs.ProcTable.Exit | kernel/proc.c:224-239 | slot by slot: the caller is a zombie, its children are init's, sleepers on the parent's slot, and on init's iff a child is a zombie, become runnable, all else is unchanged |
| Procs.ProcTable.WaitScan | kernel/proc.c:264-298 | the first zombie child's slot is cleared and its pid returned, else failure without children or when killed, else sleep on the own slot; other slots are unchanged |
| Procs.ProcTable.Kill | kernel/proc.c:515-532 | the first slot with the pid is marked, and made runnable if it slept; nothing else changes; fails iff no slot has the pid |
| Procs.ExitedByLaw | kernel/proc.c:224-239 | the table that exit leaves, slot by slot |
| ProcRuns.BootInv | kernel/proc.c:97-125 | the table after userinit satisfies the invariant and nobody is marked as killed |
| ProcRuns.ForkKeeps | kernel/proc.c:131-179 | every step of fork, also a failing one, keeps it |
| ProcRuns.ExitKeeps | kernel/proc.c:207-242 | exit keeps it |
| ProcRuns.WaitKeeps | kernel/proc.c:258-300 | wait keeps it |
| ProcRuns.RestatedKeeps | kernel/proc.c:408-532 | scheduling, sleep, wakeup and kill keep it |
| ProcRuns.StepKeeps | kernel/proc.c:53-300 | every step keeps it |
| ProcRuns.RunKeeps | kernel/proc.c:53-300 | it holds after every run |
| ProcRuns.TableSafe | kernel/proc.c:53-300 | no process asleep in wait has a zombie child, all parents are alive, pids in use are distinct and below nextpid |
| ProcRuns.ReapedOnce | kernel/proc.c:272-284 | no pid is reaped twice; reaped means exited and no longer a zombie |
| ProcRuns.WakeupLaw | kernel/proc.c:461-488 | after wakeup on any channel no slot sleeps on it, those that did are runnable and otherwise equal, all others are equal |
| ProcRuns.SleepWakeRun | kernel/proc.c:408-488 | a process that sleeps on a channel stays asleep through wakeups on others and is runnable after one on its own |
| ProcRuns.YieldRun | kernel/proc.c:376-383 | a process that yields can run again, with the rest of the table unchanged |
| ProcRuns.KillLaw | kernel/proc.c:515-532 | kill changes the mark of the first slot with the pid, its state if it slept, and nothing else |
| ProcRuns.ForkRun | kernel/proc.c:131-179 | a whole fork makes the first free slot a runnable child with the next pid and the caller as parent; a failed one leaves only the pid |
| ProcRuns.WaitLaw | kernel/proc.c:258-300 | a pass of wait frees the slot of the first zombie child and returns its pid; without one it fails or sleeps as the table says |
| ProcRuns.ExitWaitRun | kernel/proc.c:207-300 | a process exits whose parent sleeps in wait: the parent becomes runnable and, once scheduled, reaps a zombie child, the one that exited unless it had inherited others |
| ProcRuns.KillCleanIff | kernel/proc.c:515-532 | kill leaves free slots unmarked iff the slot it finds is in use |
| ProcRuns.KillMarksFreeSlot | kernel/proc.c:520-522 | kill(0) right after boot makes the next child be born killed |
| SleepLocks.OneOwner | kernel/sleeplock.c:22-30 | at most one process owns the lock |
| SleepLocks.StepKeeps | kernel/sleeplock.c:22-39 | every step of every process keeps the invariant: locked iff owned, pid of the owner, sleepers attended |
| SleepLocks.KilledKeeps | kernel/proc.c:515-532 | so does kill, which wakes a sleeper early |
| SleepLocks.KillLaw | kernel/proc.c:515-532 | kill sends a sleeper back to the test, and changes nobody else and nothing of the lock |
| SleepLocks.RunKeeps | kernel/sleeplock.c:22-39 | it holds after every run |
| SleepLocks.MutualExclusion | kernel/sleeplock.c:22-39 | never two holders; with the spin lock free a sleeper waits for a holder that is there |
| SleepLocks.Progress | kernel/sleeplock.c:22-39 | while a process is inside acquiresleep or releasesleep or holds the lock, one such process can move |
| SleepLocks.HoldingSleepIff | kernel/sleeplock.c:41-48 | holdingsleep is right about its caller iff no other process holds the lock |
| SleepLocks.HolderAnswered | kernel/sleeplock.c:41-48 | a caller that holds the lock is answered right |
| SleepLocks.HoldingSleepWrong | kernel/sleeplock.c:41-48 | a run of two processes in which the one without the lock is answered wrong |
| PipeRing.TestsExact | kernel/pipe.c:85-114 | the counter comparisons decide empty and full, also across 32-bit wrap-around |
| PipeRing.PutAppends | kernel/pipe.c:93 | storing appends to the unread bytes and overwrites none |
| PipeRing.GetRemoves | kernel/pipe.c:116 | taking removes the oldest byte |
| PipeRing.Pipe.StoreUntilFull | kernel/pipe.c:84-94 | the store loop between two sleeps appends a prefix, until done or full |
| PipeRing.Pipe.CopyOut | kernel/pipe.c:113-117 | the copy loop takes the oldest bytes, as many as asked for or there are |
| PipeProtocol.WakeupKeeps | kernel/proc.c:461-488 | after wakeup no thread sleeps on the channel |
| PipeProtocol.OthersKeep | kernel/proc.c:408-441 | the other threads keep what they know when one moves |
| PipeProtocol.WriteKeeps | kernel/pipe.c:78-98 | every step of pipewrite keeps the invariant |
| PipeProtocol.ReadKeeps | kernel/pipe.c:100-121 | every step of piperead keeps it |
| PipeProtocol.CloseKeeps | kernel/pipe.c:59-75 | every step of pipeclose, with the freeing of the pipe, keeps it |
| PipeProtocol.LockKeeps | kernel/proc.c:408-441 | the steps of sleep and of the locks keep it |
| PipeProtocol.KillKeeps | kernel/proc.c:515-532 | kill keeps it |
| PipeProtocol.StepKeeps | kernel/pipe.c:59-121 | every step keeps it |
| PipeProtocol.StepRecorded | kernel/pipe.c:78-121 | each call has stored the first bytes of its buffer, or returned what it took, in order |
| PipeRuns.StepApart | kernel/pipe.c:85-112 | every step keeps readers and writers from being asleep together |
| PipeRuns.StepEnds | kernel/pipe.c:59-75 | every step keeps: one closer for each end, a pipe with both ends shut is freed or about to be by the closer that holds the lock |
| PipeRuns.LastCloser | kernel/pipe.c:70-74 | the closer that finds both ends shut is alone |
| PipeRuns.StepMarks | kernel/proc.c:520-526 | only kill marks a thread |
| PipeRuns.StepMissed | kernel/pipe.c:86-89 | a wakeup is missed by exactly the early return from a full pipe, and made up for by exactly the wakeups of readers and the taking of the last byte |
| PipeRuns.RunKeeps | kernel/pipe.c:59-121 | all invariants hold after every run |
| PipeRuns.MissedIff | kernel/pipe.c:84-118 | the record of a missed wakeup says that in the run a writer left by that branch and since then no step woke the readers or emptied the pipe |
| PipeRuns.NoLostWakeup | kernel/pipe.c:85-112 | with the lock free a sleeping reader means empty and write end open iff the run has not missed a wakeup, a sleeping writer always full and read end open, never both |
| PipeRuns.NoKillNoLoss | kernel/pipe.c:85-112 | as long as nobody is killed a sleeping reader means empty and write end open |
| PipeRuns.LostWakeup | kernel/pipe.c:86-89 | the failing run: a killed writer fills the pipe and leaves a reader asleep over it |
| PipeRuns.FreedAlone | kernel/pipe.c:70-74 | the pipe is freed iff both ends are shut and the lock is free; then no call is under way, begins or goes on |
| PipeRuns.BytesInOrder | kernel/pipe.c:93-116 | the bytes taken are a prefix of the bytes stored; the rest is the ring's window of at most 512 |
| PipeRuns.CallsEnd | kernel/pipe.c:86-120 | a read of n > 0 returns 0 only when empty with the write end closed, killed or not; a write that does not return -1 stored its buffer in order; -1 is a killed reader of an empty open pipe or a write cut short by a full pipe with the read end closed or the caller killed; a read returns just what it took |
| PipeRuns.BeginIff | kernel/pipe.c:59-121 | a read or write begins iff its end is not closed, a close once and iff no call uses the end |
| PipeRuns.KillLaw | kernel/proc.c:515-532 | kill marks one thread, makes it runnable if it slept, and changes nothing else |
| PipeRuns.KilledSleeperReturns | kernel/pipe.c:85-112 | a killed sleeper that still finds the pipe full, or empty with the write end open, leaves its call in three steps of its own |
| PipeRuns.Progress | kernel/pipe.c:59-121 | as long as a call is unfinished and awake some thread can move |
| ExtentSpec.RecordRoundTrip | kernel/fs.c:498-509 | the record updateInodeFile writes gives back kind, size and extent |
| ExtentSpec.BlockPatched | kernel/fs.c:243-245 | one block write is a store into the flat disk |
| ExtentSpec.PatchedTwice | kernel/fs.c:230-250 | adjacent stores are one store |
| ExtentFiles.FileSystem.CopyBlocks | kernel/fs.c:210-216 | the block loop of readi returns the bytes of the range |
| ExtentFiles.FileSystem.ReadI | kernel/fs.c:195-218 | -1 iff the offset is past the end or the range wraps, else the range cut at the end |
| ExtentFiles.FileSystem.StoreBlocks | kernel/fs.c:229-250 | the block loop of writei is one store of all bytes |
| ExtentFiles.FileSystem.WriteI | kernel/fs.c:221-262 | writei with its recursion through the inode file: which bytes, which records, which sizes; it terminates |
| ExtentFiles.FileSystem.UpdateInodeFile | kernel/fs.c:498-509 | the record of one inode, and the inode file's own record if it grew behind its start |
| ExtentFiles.FileSystem.UdiskCopy | kernel/fs.c:393-403 | the destination slice becomes the source slice, nothing else changes |
| ExtentFiles.WriteThenRead | kernel/fs.c:195-262 | written bytes are read back |
| ExtentFiles.WriteLeaves | kernel/fs.c:212-246 | every other byte of the file, of files with disjoint extents and of other containers is unchanged |
| ExtentFiles.GrowthRecorded | kernel/fs.c:252-257 | after growth the record on disk holds the new size and the extent; only growth of file 0 from its start is not recorded |
| ExtentFiles.InodeFileRecorded | kernel/fs.c:252-257 | after a write behind its start that made the inode file grow, its own record holds its new end and extent; the size in memory is that end iff it is at least one record |
| ExtentFiles.GrowthOfInodeFile | kernel/fs.c:498-509 | the same when the growth of another file has put its record past the end of the inode file |
| ExtentFiles.RecordsKept | kernel/fs.c:498-509 | every other record is unchanged, and the inode file's own unless it grew |
| ExtentFiles.GrownSizeIs | kernel/fs.c:252-257 | the inode file's size never shrinks and is the larger of size and end of the write iff the write does not end inside the first record behind its start |
| FreeList.InsertOrdered | user/umalloc.c:31-40 | joining a block keeps the list ordered, disjoint and coalesced |
| FreeList.InsertCovers | user/umalloc.c:31-40 | joining adds exactly the block's units |
| FreeList.LinkedRepresents | user/umalloc.c:31-40 | the header stores of free represent the joined list |
| FreeList.TakeOrdered | user/umalloc.c:70-76 | taking a block or its tail keeps the list ordered and clear of it |
| FreeList.TakeCovers | user/umalloc.c:70-76 | taking removes exactly the taken units |
| FreeList.CutRepresents | user/umalloc.c:70-76 | the header stores of malloc represent the shorter list |
| Malloc.FreeXorLive | user/umalloc.c:24-84 | no unit is both free and live |
| Malloc.FreedKeeps | user/umalloc.c:24-42 | free keeps the list one ordered coalesced cycle clear of live blocks, and every unit accounted for |
| Malloc.HandedKeeps | user/umalloc.c:69-79 | so does malloc |
| Malloc.AdoptedKeeps | user/umalloc.c:50-54 | so does new core above all the old |
| Malloc.FreeStops | user/umalloc.c:28-30 | the search of free stops at the one right place and nowhere else |
| Malloc.NeededUnits | user/umalloc.c:63 | the units asked for hold a header and the bytes |
| Malloc.CoreHonestIff | user/umalloc.c:44-54 | sbrk is asked for what is claimed, or fails, iff the request is at most 2^32 - 32 bytes |
| Malloc.CoreAsked | user/umalloc.c:44-63 | sbrk is asked for 64 KB, or for the rounded request and a header, and for a negative number iff the request is above 2^31 - 32 bytes |
| Malloc.HugeRequest | user/umalloc.c:44-54 | a request for which it is asked for nothing |
| Malloc.FreeDetermined | user/umalloc.c:24-84 | core and live blocks determine the free list, whatever the history |
| Malloc.Canonical | user/umalloc.c:24-84 | two ordered coalesced lists over the same units are equal |
| Malloc.Allocator.constructor | user/umalloc.c:21-22 | the empty allocator |
| Malloc.Allocator.FindPlace | user/umalloc.c:28-30 | free's search, within one lap |
| Malloc.Allocator.Free | user/umalloc.c:24-42 | free: the block leaves the live ones and joins the list behind the last block below it, where freep then is |
| Malloc.Allocator.MoreCore | user/umalloc.c:44-57 | new core joins the list, some block then fits, or nothing changes |
| Malloc.Allocator.Search | user/umalloc.c:68-83 | one lap finds the next fit behind freep, or none fits |
| Malloc.Allocator.HandOut | user/umalloc.c:70-78 | the block or its tail becomes live |
| Malloc.Allocator.Malloc | user/umalloc.c:59-84 | the tail of the first block that fits behind freep, its head stays free; only if none fits, a block after one morecore, or null when sbrk fails and then nothing changes |
| ShellGrammar.SkipWs | user/sh.c:299-300 | what is left is a suffix that starts with no white space |
| ShellGrammar.WordLen | user/sh.c:324-325 | the longest run of word characters |
| ShellGrammar.GetTok | user/sh.c:294-335 | the text left is a suffix, shorter unless at the end |
| ShellGrammar.ParseRedirs | user/sh.c:393-414 | terminates and leaves a suffix |
| ShellGrammar.ParseArgs | user/sh.c:444-458 | terminates and leaves a suffix |
| ShellGrammar.ParseExec | user/sh.c:430-459 | terminates and leaves a suffix |
| ShellGrammar.ParseBlock | user/sh.c:416-428 | terminates and leaves a suffix |
| ShellGrammar.ParsePipe | user/sh.c:382-391 | terminates and leaves a suffix |
| ShellGrammar.ParseLine | user/sh.c:367-380 | terminates and leaves a suffix |
| ShellSyntax.WrapMeans | user/sh.c:393-414 | redirections wrap a command in order, the last outermost |
| ShellSyntax.ReadsArgs | user/sh.c:444-458 | the argument loop reads at most nine words and any redirections between and behind them as that exec node wrapped in them, in order |
| ShellSyntax.ReadsLine | user/sh.c:367-459 | a line of the grammar, with anything behind it that ends it, is read as what it means |
| ShellSyntax.LineFrom | user/sh.c:367-459 | what is read is a line of the grammar with that meaning |
| ShellSyntax.Accepted | user/sh.c:352-459 | every line that the grammar writes is accepted, with its meaning |
| ShellSyntax.Language | user/sh.c:352-459 | parsecmd accepts a line as a command iff the grammar writes the line and means the command |
| ShellPrinting.LexSymbol | user/sh.c:294-335 | a symbol is a lexeme of its own |
| ShellPrinting.LexAppend | user/sh.c:315-320 | `>>` is one lexeme |
| ShellPrinting.LexWord | user/sh.c:322-326 | a maximal run of word characters is one lexeme |
| ShellPrinting.LexWhite | user/sh.c:299-333 | white space separates and is dropped |
| ShellPrinting.PrintedLine | user/sh.c:352-459 | every line of the grammar, with any white space between its lexemes, is accepted with its meaning |
| ShellPrinting.OneMeaning | user/sh.c:352-459 | the grammar is not ambiguous |
| ShellPrinting.SimpleLine | user/sh.c:430-459 | words and redirections before, between and behind them parse to the exec node of the words wrapped in exactly those redirections, in order |
| ShellPrinting.ShortLines | user/sh.c:367-391 | `a | b`, `a ; b` and `a &` without parentheses parse to the pipe, the list and the background command |
| ShellPrinting.OnText | user/sh.c:294-335 | the parenthesised text of a command is cut into the lexemes of its tree |
| ShellPrinting.RoundTrip | user/sh.c:352-459 | parsing the printing of any command of plain words, at most nine per command, succeeds and returns it |
| ShellPrinting.AppendIsOverwrite | user/sh.c:393-414 | `>>` before a text parses to what `>` before it does iff the text does not begin with a third `>`, or neither is accepted |
| ShellPrinting.AppendLine | user/sh.c:352-459 | the line that appends the output of any command to any file parses to the command that overwrites it |
| ShellParser.Parser.constructor | user/sh.c:352-357 | the cursor starts at the line's first character |
| ShellParser.Parser.SkipWhite | user/sh.c:341-342 | skips exactly the white space |
| ShellParser.Parser.SkipWord | user/sh.c:324-325 | moves behind the word |
| ShellParser.Parser.Scan | user/sh.c:303-327 | kind and length of the token |
| ShellParser.Parser.GetToken | user/sh.c:294-335 | gettoken with the cursor |
| ShellParser.Parser.Peek | user/sh.c:337-345 | peek with the cursor |
| ShellParser.Parser.Redirections | user/sh.c:393-414 | the loop of parseredirs |
| ShellParser.Parser.Arguments | user/sh.c:444-458 | the argument loop of parseexec |
| ShellParser.Parser.ParseExec | user/sh.c:430-459 | parseexec with the cursor |
| ShellParser.Parser.ParseBlock | user/sh.c:416-428 | parseblock with the cursor |
| ShellParser.Parser.ParsePipe | user/sh.c:382-391 | parsepipe with the cursor |
| ShellParser.Parser.ParseLine | user/sh.c:367-380 | parseline with the cursor |
| ShellParser.Parser.ParseCmd | user/sh.c:352-362 | parsecmd up to nulterminate: the whole line or failure |
| ShellWords.TokenInText | user/sh.c:322-329 | a word token is maximal: word characters, followed by none |
| ShellWords.LineInText | user/sh.c:367-459 | every word of a parsed command is such a token of the line |
| ShellWords.Nulterminate | user/sh.c:462-504 | zero bytes exactly behind the words of the command |
| ShellWords.WordsEnded | user/sh.c:352-504 | after parsecmd every argument and file name is a C string equal to its token |
| Regex.HereStar | user/grep.c:82-98 | a starred item matches some run of its character followed by the rest |
| Regex.HereOne | user/grep.c:86-87 | a single item matches one character followed by the rest |
| Regex.PrintedItems | user/grep.c:79-89 | the text of a list of plain items means that list |
| Regex.MatchHere | user/grep.c:78-89 | true iff a prefix of the text is in the pattern's language, to the end if anchored |
| Regex.MatchStar | user/grep.c:91-98 | true iff the rest matches behind some run of the character |
| Regex.Match | user/grep.c:68-76 | true iff the pattern matches somewhere, or at the start if it begins with a caret |

## Left out

- Cow.AddressSpaces.VspaceCopy: of a copy that runs out of memory it says only that no frame is left; the source leaves it half done.
- Cow.AddressSpaces.CowVspaceCopy: a space is a flat array of descriptors; the kalloc of chunk pages for the copy, and its failure, are not modelled (the chunks are, in VRegions).
- Cow.CowCopyKeeps: the same chunk pages of the copy are not counted.
- Cow.VspaceCopyShows: the same, for the chunk pages of the child.
- Cow.CowRunsReadLikeEager: a space is a flat array of descriptors here too, and grows at its end; the chunk pages are not counted.
- CowFrames.RunConserves: counts the frames of pages only, not chunk pages and page tables.
- CowFrames.AllGivenBack: the same.
- Cow.DropKeeps: a page is given back by its descriptor, where the source frees by present page-table entries; the teardown by entries is modelled in Teardown and FreeTables.
- Cow.ExitShows: gives back by descriptor in the same way.
- VSpace.MapRegion: the descriptor lookup is pure; va2vpage_info may allocate a missing chunk inside the loop.
- VSpace.VspaceInvalidate: the same allocation of missing chunks is left out.
- VSpace.InvalidateRebuilds: the same allocation of missing chunks is left out.
- VRegions.VRegion.Find: an exhausted kalloc for a region's first chunk counts as failure; the source would use a null pointer there.
- VRegions.VRegion.Sbrk: heaps that end within a page of 4 GB, or beyond it after a wrapped call, are excluded.
- HeapGrowth.SysSbrk: the other regions are values; the switch to the rebuilt table (vspaceinstall) is left out.
- HeapGrowth.SbrkCalls: the calls together stay below 2 GB and below the next region; sbrk itself checks neither.
- HeapGrowth.Rebuild: the allocation of missing chunks during the rebuild is left out, as in VSpace.
- QueuedCache.IntrSim: completions with a disk error are not part of this run model; DiskRuns has them.
- QueuedCache.EventKeeps: the same.
- QueuedCache.EventsKeep: the same.
- QueuedCache.QueuedBreadReturnsLastWritten: completions with a disk error are not part of this run model; DiskRuns has them.
- MemIde.MemDisk.IdeRw: the panic for devices other than 1 is not modelled; the disk is a map that may hold both drives.
- Procs.ProcTable.AllocProc: nextpid is unbounded; its wrap-around after 2^31 forks is not modelled.
- BufferCache.BreadReturnsLastWritten: the disk answers at once here; QueuedCache has the queue.
- BufferCache.StepKeepsCoherent: the same.
- BufferCache.StepKeeps: the same.
- ExtentFiles.FileSystem.ReadI: device inodes are not modelled.
- ExtentFiles.FileSystem.WriteI: device inodes are not modelled; the bytes written must lie on the disk.
- Malloc.Allocator.Malloc: a truncated request that sbrk grants (2^32 - 31 bytes and more) is excluded; the code then hands out memory it does not have.
- ShellParser.Parser.Arguments: the argument array is a value that is wrapped at the end; the source fills the node it has already wrapped.
- The guest system (kernel/guest.c, user/guest_os.c), wakeup_children and the app system calls: they force process states from outside.
- findBlocks, directories, path names and inode references; device files in readi and writei.
- copyout, vspacewritetova, vspaceloadcode, exec, setupkvm and mem_init.
- Stack growth on page faults, which is one call of vregionaddmap.
- Spin locks below their exclusion, and interrupt nesting (pushcli, popcli).
- Crash injection in bwrite (crashn) and the counters for statistics.
- grep's line buffering; the execution of parsed commands.
- Port I/O, boot code, console, traps other than the copy-on-write fault.
