# A verified model of a simulated operating system

The repository simulates an operating system: several CPU threads take processes from a multi-level queue scheduler, each
process runs a small program that allocates, frees, reads and writes memory through a paging engine with one RAM and one
swap device, and a timer keeps all threads in step. This project models the three machines in Dafny and proves what they
do over every run.

`dafny verify dfyconfig.toml` covers the whole project.

## The three machines

**Paging** (`Bits`, `PageEntry`, `Regions`, `Paging`, `MemoryRuns`, `MemoryAccounts`, `FrameLists`, `Interleaving` on values;
`RegionList`, `Devices`, `PagingCode`, `ProcessCode` as classes). Any number of processes share the devices. The central result
is refinement: page tables, RAM, swap and frame lists together give every process a plain map from addresses to bytes
(`MemoryRuns.Memory`), which only growing allocations and writes that hit it change; exactly when a write of another process
can hit it is stated and proved. `Interleaving` breaks faults and mappings into their locked calls, byte copies and entry
updates, and shows that no mix of them, on any number of CPUs, gives a frame two owners, or changes a byte of a page whose frame
and copying no write touches. The classes carry the code's own form (packed 32-bit entries in an array, linked region nodes
changed through pointers, byte-copy loops) and each method is proved equal to the function of the value modules that the
theorems are about. A method works on one process's own view of the machine; the `...Lifts` lemmas carry it to the machine of
many processes.

**Scheduler and CPU loop** (`Scheduler`, `Fairness`, `CpuLoop` on values; `SchedulerCode` as classes). `Scheduler.Get` is one
atomic call; `Fairness` bounds the waiting time of every process; `CpuLoop` splits the call at its locks and interleaves any
number of CPUs with the loader.

**Timer barrier** (`Barrier`). A transition system for one timer and any number of devices, with explicit sleeping
states, so that lost wake-ups would show.

## Where the code does less than it is meant to

The model follows the code. Where a promised property fails, a lemma gives the exact condition and another a failing case.

- `pg_getpage` decodes the entry it read before the fault (src/mm-vm.c:281, 318), so an access that faults uses the wrong frame
  unless the stale bits happen to spell the victim's frame. `SetValRightIff` and `GetValRightIff` state when an access is right,
  `SetValExact` where a write goes otherwise, and `StepIsolatesIff` and `RunIsolatesIff` when isolation (README.md:7) holds;
  `IsolationCanBreak` is an ordinary history in which one process writes into another. Reads go wrong in the same way, and a read
  of a page never mapped brings in swap frame 0, whoever has it; `ReadRevealsIff` states when a read reveals another process's
  bytes. Runs admit every access without undefined behaviour: right, astray, or failing.
- The two-sided merge (src/mm-vm.c:75-76) deletes the upper neighbour's node first; when the lower neighbour is the next node, that
  deletion has already freed it. `free` is modelled as leaving memory readable, so the outcome is definite: the lower neighbour
  stays listed twice (`FreeKeepsPartitionIff`, `BadOrderReachable`), and the second deletion frees the node behind it, which the list
  still links (src/mm-vm.c:109; `EnlistRegion` states exactly when a freed node stays linked).
- An allocation into an occupied register loses the old region (`AllocKeepsPartitionIff`, `OccupiedRegisterLoses`).
- The register test of `__free` and `get_symrg_byid` (src/mm-vm.c:152, 227) lets 30 through, one past the symbol table (`FreeReg`).
- The bound comparison admits an offset equal to the size (`AdmittedReaches`, `OnePastTheEnd`).
- `vmap_page_range` lists each page's successor, so page 0 is no victim before a fault has listed it (`VictimIff`,
  `NoVictimReachable`).
- The restarted scan begins at queue 1 (`RestartSkipsQueueZero`, `QueueZeroCanBePassedOver`), and with several CPUs a slot count
  can wrap (`StepBudgetsIff`, `RaceReachable`).

## What callers must provide

Zeroed page and symbol tables and an empty page list (src/mm.c:272-294 leaves them to the allocator); at most 2^13 RAM and 2^21
swap frames; a page table index below 16384 for every page and for the one past the last, which the page list also names; a
register below 30 for an allocation; room in a queue of 10 (include/queue.h:7); a positive quantum. A swap frame is needed for a
fault, because its absence is not noticed (src/mm-vm.c:300).

## Model

| member | source | states |
|---|---|---|
| `Bits.NBitsIsLog2` | include/bitops.h:31-36 | NBITS is floor(log2) on every non-zero 32-bit word: shifting right by it leaves exactly 1 |
| `Bits.RoundTrip` | src/mm.c:75-83 | an integer below 2^32 survives the implicit conversion to an unsigned word and back |
| `PageEntry.Masks` | include/mm.h:50-83 | the GENMASK fields of entries and addresses are the bit ranges the comments give, and NBITS(256) is 8 |
| `PageEntry.SetFpnDecodes` | src/mm.c:75-83 | whatever bits an entry held, pte_set_fpn makes it resident at the frame number mod 2^13 |
| `PageEntry.SetSwapDecodes` | src/mm.c:59-68 | whatever bits an entry held, pte_set_swap with type 0 makes it swapped at the offset mod 2^21 |
| `PageEntry.FpnOfDecode` | include/mm.h:71-93 | the frame field, present bit and swap field of every entry the setters leave are determined by its meaning; on a swapped entry the frame field spells 32 * (offset mod 256) |
| `PageEntry.HistoryMeansLast` | src/mm.c:59-83 | after any history of setter calls with in-range arguments, on any initial bits, the entry means exactly what the last call said |
| `PageEntry.FpnSurvivesIff` | include/mm.h:40-41 | a frame number survives the page table if and only if it is below 2^13 |
| `PageEntry.AddrSplits` | include/mm.h:88-90 | PAGING_PGN and PAGING_OFFST are quotient (mod 2^14) and remainder by 256 on every 32-bit address |
| `PageEntry.AddrRecombinesIff` | include/mm.h:88-90 | page and offset recombine to the address if and only if it is below 2^22 |
| `PageEntry.PageAlignIsLeast` | include/mm.h:15 | PAGING_PAGE_ALIGNSZ is the least multiple of 256 that is no smaller |
| `Regions.FirstFit` | src/mm-vm.c:688-727 | the index found has room and no earlier node has |
| `Regions.DeleteCount` | src/mm-vm.c:98-118 | copy-next deletion takes away exactly the target's addresses, at the tail too |
| `Regions.TakeCount` | src/mm-vm.c:690-720 | first fit takes from the list exactly the region it hands out, address by address |
| `Regions.TakeListOk` | src/mm-vm.c:700-720 | first fit keeps the (0,0) sentinel last and every other node non-empty |
| `Regions.TakePlace` | src/mm-vm.c:690-720 | what is left of the node stays in its place, and every other node in its order |
| `Regions.TakeCoalesced` | src/mm-vm.c:690-720 | first fit keeps the list coalesced |
| `Regions.EnlistCount` | src/mm-vm.c:38-93 | in all four merge cases freeing adds exactly the freed region; in the bad merge order the lower neighbour is listed a second time |
| `Regions.EnlistListOk` | src/mm-vm.c:57-93 | freeing keeps the sentinel last, so the tail branch of deletion is never reached |
| `Regions.NoneStarting` | src/mm-vm.c:42-46 | the walk finds the last node that starts where the region ends, if there is one |
| `Regions.NoneEnding` | src/mm-vm.c:47-51 | and the last that ends where it starts |
| `Regions.EnlistJoins` | src/mm-vm.c:57-77 | freeing joins: one node then holds the region together with every listed region that ends where it starts or starts where it ends |
| `Regions.EnlistPlace` | src/mm-vm.c:57-93 | the joined region takes its one neighbour's place, or goes in front without one or in place of two; all other nodes keep place and order |
| `Regions.EnlistCoalesced` | src/mm-vm.c:57-93 | freeing keeps the list coalesced: no listed region starts where another ends |
| `Regions.OneNode` | src/mm-vm.c:688-727 | in a coalesced list consecutive free addresses lie in one node |
| `Regions.FitIff` | src/mm-vm.c:688-727 | so first fit finds room if and only if as many consecutive addresses are free |
| `Regions.AllocExact` | src/mm-vm.c:166-214 | an allocation of any size gives its register a region of exactly that size, at the front of the first node with room or else at the break, which then moves by the size; every other register stays |
| `Regions.FreeExact` | src/mm-vm.c:223-243 | a free sets its register to (0,0) and leaves every other register and the break alone |
| `Regions.AllocShape` | src/mm-vm.c:166-214 | every allocation keeps the list shape and vm_end = sbrk rounded up to a page |
| `Regions.FreeShape` | src/mm-vm.c:223-243 | every free keeps them too |
| `Regions.AllocKeepsPartitionIff` | src/mm-vm.c:166-214 | an allocation leaves every address below sbrk in exactly one live or free region if and only if its register held no region |
| `Regions.FreeKeepsPartitionIff` | src/mm-vm.c:223-243 | a free keeps that partition if and only if it does not merge with the lower neighbour directly behind the upper one in the list |
| `Regions.SpaceRun` | src/mm-vm.c:166-243 | every run of allocations and frees, proper or not, keeps the sentinel last and vm_end page-aligned over sbrk |
| `Regions.RunPartitionIff` | src/mm-vm.c:166-243 | over any run, live and free regions partition [0, sbrk) at every point if and only if every call is proper |
| `Regions.RunCoalesced` | src/mm-vm.c:166-243 | over any proper run the free list stays coalesced |
| `Regions.BreakIsSum` | src/mm-vm.c:190-204 | over any run the break moves by the sum of the sizes of the allocations that found no node with room |
| `Regions.RegistersKept` | src/mm-vm.c:166-243 | over any run a register holds a region of the size last asked for it, or (0,0) if it was last freed |
| `Regions.InitPartition` | src/mm.c:272-294 | the initial space is partitioned |
| `Regions.LiveRegionsDisjoint` | src/mm-vm.c:166-243 | in a partitioned space no two registers share an address and no live address is free |
| `Regions.BadOrderReachable` | src/mm-vm.c:69-77 | allocating three neighbours and freeing first, last, middle makes two later allocations share bytes |
| `Regions.OccupiedRegisterLoses` | src/mm-vm.c:171-208 | two allocations into register 0 leave 100 bytes below sbrk that are in no live and no free region |
| `Regions.AdmittedIff` | src/mm-vm.c:398-400 | with the region size converted from a signed to an unsigned word as the comparison does, an offset is admitted if and only if it is at most the size |
| `Regions.OneOfThree` | src/mm-vm.c:166-243 | in a partitioned space every address is live, free, or at or above sbrk, and only one of them |
| `Regions.AdmittedReaches` | src/mm-vm.c:398-408 | an admitted offset below the size reaches this region and no other, live or free; one equal to the size reaches the first byte of the live or free region that starts there, or, if and only if there is none, the break |
| `Regions.EmptyRegisterAdmits` | src/mm-vm.c:454-456 | a register without a region admits offset 0, that is address 0, and no other |
| `Regions.OnePastTheEnd` | src/mm-vm.c:454-464 | the admitted offset equal to the size is the first byte of a neighbouring region, and a register never allocated reaches the first byte of the first one |
| `Regions.GrowthExact` | src/mm-vm.c:190-204 | the in-page branch never needs a new page; the other asks for exactly the pages between the old and new aligned break |
| `RegionList.RgNode.DeleteSelf` | src/mm-vm.c:98-118 | overwrites the node with its successor and unlinks it, or empties a tail node |
| `RegionList.FreeList.constructor` | src/mm.c:283-284 | the list starts with the dummy node alone, and nothing freed |
| `RegionList.FreeList.DeleteNode` | src/mm-vm.c:98-118 | on a node of the list, deletion is removal from the sequence and frees a node the list no longer reaches; on a node already unlinked it leaves the list alone and frees that node's successor |
| `RegionList.FreeList.PushFront` | src/mm-vm.c:81-93 | a new node goes in front, the rest unchanged |
| `RegionList.FreeList.FindFit` | src/mm-vm.c:688-727 | the pointer walk stops at the first node with room |
| `RegionList.FreeList.Cut` | src/mm-vm.c:690-720 | the node is shortened from its start or deleted, as TakeFrom says |
| `RegionList.FreeList.TakeFree` | src/mm-vm.c:675-733 | the whole of get_free_vmrg_area on linked nodes equals first fit on the sequence, found or not, and the list reaches no freed node |
| `RegionList.FreeList.FindNeighbours` | src/mm-vm.c:38-55 | the walk up to the first (0,0) node returns the last upper and lower neighbours |
| `RegionList.FreeList.DeleteBothNodes` | src/mm-vm.c:71-77 | the two deletions of the two-sided merge, in every list order; in the bad one the second deletion frees the node behind the lower neighbour, which the list still reaches |
| `RegionList.FreeList.EnlistFound` | src/mm-vm.c:57-95 | the four merge cases and the return code |
| `RegionList.FreeList.EnlistProper` | src/mm-vm.c:38-95 | the walk and the merge on linked nodes equal EnlistAt on the sequence, with the return code |
| `RegionList.FreeList.EnlistRegion` | src/mm-vm.c:17-96 | the whole of enlist_vm_freerg_list on linked nodes equals Enlist on the sequence, with its return code; afterwards the list reaches no freed node if and only if the merge order was not the bad one |
| `Paging.Victim` | src/mm-vm.c:650-665 | the page found is listed and resident, and no page listed before it is resident |
| `Paging.CanFaultIff` | src/mm-vm.c:283-313 | in a sound machine a fault can be served if and only if the page is not resident, a victim is listed and a swap frame is free |
| `Paging.FaultEntries` | src/mm-vm.c:308-313 | the page gets the victim's frame, the victim the free swap frame, and no other entry of any process changes |
| `Paging.FaultKeepsPage` | src/mm-vm.c:289-313 | a fault leaves the bytes of every mapped page of every process as they were |
| `Paging.FaultInv` | src/mm-vm.c:283-315 | a fault keeps every frame with at most one owner and makes the page resident |
| `Paging.FaultFrames` | src/mm-vm.c:302-306 | a fault writes two frames, the free swap frame and the victim's, with what bytes; every other frame of both devices is as before |
| `Paging.NextVictim` | src/mm-vm.c:315 | the page brought in last is the next victim |
| `Paging.MapExact` | src/mm.c:158-241 | a mapping with enough frames maps exactly the n pages, min(n, free RAM frames) resident and the rest swapped, in reverse free-list order, all other entries alone; one without leaves every page table alone and both lists empty |
| `Paging.NewPageBytes` | src/mm.c:101-123 | a mapping changes no byte: a new page holds whatever its frame held |
| `Paging.MapNotes` | src/mm.c:165-195 | a mapping notes every frame it takes as used, on both devices, also when it fails |
| `Paging.MapVictim` | src/mm.c:106-110 | after a mapping with two or more resident pages the last of them is the next victim, unless the page past the range is resident |
| `Paging.NewEntryFresh` | src/mm.c:165-195 | every frame a mapping uses was free and is free no longer |
| `Paging.NewEntriesDistinct` | src/mm.c:165-195 | no frame is mapped twice by one mapping |
| `Paging.MapInv` | src/mm.c:209-241 | mapping keeps the machine sound, also when it runs out of frames |
| `Paging.MapKeepsPage` | src/mm.c:101-123 | pages outside the range keep their bytes |
| `MemoryRuns.SetValRight` | src/mm-vm.c:352-367 | through a right frame a write changes exactly its own byte, of all pages of all processes |
| `MemoryRuns.SetValExact` | src/mm-vm.c:279-367 | any pg_setval that succeeds, through a right or a wrong frame, changes its byte of the page that has the frame after the fault, and no other byte of any page of any process |
| `MemoryRuns.SetValInv` | src/mm-vm.c:279-367 | and keeps frame lists and tables sound |
| `MemoryRuns.RightLands` | src/mm-vm.c:308-318 | through a right frame that page is its own |
| `MemoryRuns.SetValRightIff` | src/mm-vm.c:279-367 | pg_setval stores every byte at its address and nowhere else if and only if the page was resident or the stale frame field equals the victim's frame |
| `MemoryRuns.GetValRight` | src/mm-vm.c:329-344 | through a right frame a read returns the page's byte |
| `MemoryRuns.GetValRightIff` | src/mm-vm.c:279-344 | pg_getval returns the page's byte, whatever bytes memory holds, if and only if the frame is right |
| `MemoryRuns.AccessOutcome` | src/mm-vm.c:279-367 | an access fails if and only if its page is not resident and no victim is listed, and is undefined if and only if it must fault without a free swap frame or is given a frame number beyond the device |
| `MemoryRuns.GetValExact` | src/mm-vm.c:329-344 | any pg_getval that succeeds, through a right or a wrong frame, returns the byte at its own offset of the page it lands in |
| `MemoryRuns.GetValStray` | src/mm-vm.c:329-344 | and if it lands in no page, the byte at that offset of the frame the stale bits spell |
| `MemoryRuns.SetValFrames` | src/mm-vm.c:352-367 | a write stores its byte in the frame it is given, owned or not, and changes no other byte of either device but by the fault |
| `MemoryRuns.SpawnFresh` | src/mm.c:272-294 | a new process has nothing mapped and nothing listed, and the others stay |
| `MemoryRuns.AllocInv` | src/mm-vm.c:166-214 | an allocation, with or without enough frames, keeps the machine sound |
| `MemoryRuns.StepInv` | src/mm-vm.c:166-367 | every operation of every process, also one that fails or writes through a wrong frame, keeps frame lists, entries and break pointers sound |
| `MemoryRuns.StepSame` | src/mm-vm.c:166-367 | no step changes the bytes of a page other than one newly mapped, brought in unmapped, or landed in by a write |
| `MemoryRuns.StepIsolates` | README.md:7 | whatever another process does in a step that spares q, q keeps its memory |
| `MemoryRuns.StepIsolatesIff` | README.md:7 | a step of another process leaves the memory of q alone, for every byte it may write, if and only if it is no write, or its page is resident, or there is no victim, or no resident page of q has the frame number that the stale bits spell |
| `MemoryRuns.StepKeepsMemory` | src/mm-vm.c:329-344 | frees and reads, with or without a fault, leave the process's own address-to-byte map alone |
| `MemoryRuns.WriteHits` | src/mm-vm.c:352-367 | a write of any kind changes exactly the bytes it hits, in the memory of every process |
| `MemoryRuns.WriteRefines` | src/mm-vm.c:352-367 | a write through a right frame updates the process's map at exactly its own address |
| `MemoryRuns.AllocRefines` | src/mm-vm.c:166-214 | an allocation keeps every byte outside the pages it grows by, and those join the map exactly when there are frames for all of them |
| `MemoryRuns.RunInv` | src/mm-memphy.c:160-180 | in every run without undefined behaviour RAM frames are free or used, each once, and every mapped entry names its own frame |
| `MemoryRuns.RunIsolatesIff` | README.md:7 | over any run of other processes, every step leaves the memory of q alone if and only if every step spares q; then nothing they do changes it |
| `MemoryRuns.RunKeepsByte` | src/mm-vm.c:279-367 | a byte below vm_end stays until a write hits it, over any run of all processes |
| `MemoryRuns.ReadsLastWrite` | src/mm-vm.c:329-367 | a read through a right frame returns the last byte written there, however often the page was evicted and moved, over any run in which no other write hits the address |
| `MemoryRuns.RightRunHits` | src/mm-vm.c:352-367 | when all writes of a run go through right frames, only writes to an address hit it, and all other processes are spared |
| `MemoryRuns.RunRefines` | src/mm-vm.c:329-367 | whole-run refinement: over any run of all processes whose writes go through right frames, every byte of every process is the last one written to its address in the list of operations, or the first one, and a read through a right frame returns it |
| `MemoryRuns.ReadRevealsIff` | README.md:7 | the byte a read returns and the memory it leaves do not depend on the bytes of another process if and only if there is no fault, or no page of that process is in the frame the stale bits spell nor, for a page never mapped, in swap frame 0 |
| `MemoryRuns.SecondReadRight` | src/mm-vm.c:308-318 | after a read has brought a page in, the next access to it finds the right frame |
| `MemoryRuns.FaultLifts` | src/mm-vm.c:279-321 | a fault on one process's own view is the fault in the whole machine |
| `MemoryRuns.WriteLifts` | src/mm-vm.c:352-367 | the same for pg_setval |
| `MemoryRuns.ReadLifts` | src/mm-vm.c:329-344 | the same for pg_getval, with the byte read |
| `MemoryRuns.FreeLifts` | src/mm-vm.c:223-243 | the same for __free |
| `MemoryRuns.MapLifts` | src/mm.c:209-241 | the same for vm_map_ram |
| `MemoryRuns.AllocLifts` | src/mm-vm.c:166-214 | the same for __alloc |
| `MemoryAccounts.BootInv` | src/mm-memphy.c:129-155 | the machine starts sound, whatever bytes the devices hold |
| `MemoryAccounts.StepFullyMapped` | src/mm-vm.c:557-584 | with no failed mapping and no access outside, exactly the pages below vm_end are mapped and all from 1 to one past the end are listed |
| `MemoryAccounts.LiveBytesMapped` | src/mm-vm.c:377-389 | every byte of every live region is then in mapped memory |
| `MemoryAccounts.VictimIff` | src/mm-vm.c:606-667 | a fault then finds a victim if and only if a page other than 0 is resident, or page 0 is resident and an earlier fault has listed it |
| `MemoryAccounts.NoVictimReachable` | src/mm.c:101-110 | with one RAM frame, a process that has allocated two pages has page 0 resident and not listed: a read of the second page fails |
| `MemoryAccounts.StepSpace` | src/mm-vm.c:166-243 | faults, failed mappings and other processes leave a process's address space alone |
| `MemoryAccounts.StepPartitionFor` | src/mm-vm.c:166-243 | a step keeps a process's partition if and only if its own call is proper |
| `MemoryAccounts.RunPartitionForIff` | src/mm-vm.c:166-243 | over any run of all processes, with faults and failed mappings, the regions of a process partition its heap at every point if and only if its own calls are proper |
| `MemoryAccounts.RunKeepsMapped` | src/mm-vm.c:557-584 | over any run in which its own calls find their frames and stay in mapped memory, all of its heap stays mapped |
| `MemoryAccounts.RegionWrite` | src/mm-vm.c:433-445 | on a partitioned and mapped heap a write into a register's region, through a right frame, changes no byte of any other live region and of no other process |
| `MemoryAccounts.StepSwapFree` | src/mm-vm.c:299-304 | each fault shrinks the free swap list by one and nothing grows it |
| `MemoryAccounts.FaultsBounded` | src/mm-vm.c:289-313 | a run has at most as many faults as there were free swap frames |
| `MemoryAccounts.FaultClassified` | src/mm-vm.c:289-313 | a fault moves one swap frame from free to named and one from named to retired |
| `MemoryAccounts.MapClassified` | src/mm.c:181-193 | a mapping moves swap frames from free to named, or to dropped when it fails |
| `MemoryAccounts.StepClassified` | src/mm-vm.c:166-367 | every step keeps each swap frame in exactly one class |
| `MemoryAccounts.RunClassified` | src/mm-memphy.c:160-180 | in every run each swap frame is free, named by an entry, dropped by a mapping or retired by a swap-in: exactly one of the four |
| `MemoryAccounts.BootClassified` | src/mm-memphy.c:129-155 | at boot every swap frame is free and in no other class |
| `MemoryAccounts.IsolationCanBreak` | src/mm-vm.c:318-364 | from boot on three RAM frames, process 0 writes to its own swapped page and the byte lands in the memory of process 1 and not in its own; a read there leaks |
| `FrameLists.StepTracked` | src/mm-memphy.c:160-180 | each locked list call keeps every frame in exactly one of the free list, the used list and one thread's hand |
| `FrameLists.RunTracked` | src/mm-memphy.c:248-265 | over every interleaving of any number of threads no frame is lost or handed out twice |
| `FrameLists.FormattedTracked` | src/mm-memphy.c:129-155 | a formatted device starts that way |
| `FrameLists.IdleIsConserved` | src/mm-memphy.c:160-180 | with nothing in transit this is the conservation that the machine of whole operations keeps |
| `Interleaving.StepTotal` | src/mm.c:158-198 | no locked call, byte copy or entry update of any process makes a second owner for a frame: what one place gains another loses |
| `Interleaving.RunAccounted` | src/mm.c:158-198 | over every interleaving of any number of processes, with mappings that fail half way and writes that go astray, every frame of RAM and swap is free once, in one hand, named by one entry, or none of these |
| `Interleaving.SoleOwner` | src/mm-vm.c:299-313 | a frame that a process names or has in hand is claimed once, by no other process, and is not free |
| `Interleaving.TablesSound` | src/mm-vm.c:308-313 | at every point of every interleaving mapped entries name frames that are not free, and no two entries of any processes the same one |
| `Interleaving.RunRamTracked` | src/mm.c:165-195 | over every interleaving each RAM frame is in exactly one of the free list, the used list and the hand of one mapping |
| `Interleaving.StepBytes` | src/mm-vm.c:302-313 | at every point of a fault, between any two bytes copied, every page of every process has its bytes; a write to RAM, by whichever process and to whichever frame, changes its byte of the page that has the frame, and nothing else changes any |
| `Interleaving.StepSoundIff` | src/mm.c:249-265 | what a fault has copied for a page so far stays copied over a step of any process if and only if the step is not a write to the frame being copied, to a byte already copied, that changes it |
| `Interleaving.SpoiltPageChanges` | src/mm-vm.c:308-313 | such a write hits no page yet and is part of the page brought in one step later |
| `Interleaving.RunBytes` | src/mm-vm.c:279-321 | over every interleaving of faults, mappings and writes, wherever other writes go, a page keeps its bytes as long as none writes into the frame that has it, spoils its copying or remaps it |
| `Interleaving.FaultsKeepAllBytes` | src/mm-vm.c:279-321 | any number of faults, interleaved in any way, leaves every page of every process as it was |
| `Interleaving.QuietIff` | src/mm-memphy.c:160-180 | with no operation under way, one owner for every frame is the soundness of tables and free lists |
| `Interleaving.QuietStart` | src/mm-memphy.c:129-155 | every machine sound between operations is a sound start of an interleaving |
| `Interleaving.SoloFault` | src/mm-vm.c:279-321 | the call and then steps of its process alone add up to the atomic fault |
| `Interleaving.SoloMap` | src/mm.c:88-241 | the call and then steps of its process alone add up to the atomic mapping, enough frames or not |
| `Devices.MemPhy.constructor` | src/mm-memphy.c:129-155 | the formatting loop lists every frame of the device as free, in order |
| `Devices.MemPhy.GetFreeFp` | src/mm-memphy.c:160-180 | pops the head of the free list, or fails on an empty one |
| `Devices.MemPhy.PutUsedFp` | src/mm-memphy.c:248-265 | pushes on the used list |
| `Devices.MemPhy.Read` | src/mm-memphy.c:61-72 | returns the byte at the address, as byte of its frame |
| `Devices.MemPhy.Write` | src/mm-memphy.c:102-123 | changes one byte of one frame |
| `Devices.SwapCopyPage` | src/mm.c:249-265 | the byte loop replaces exactly the destination frame by the source frame |
| `PagingCode.PageMap.constructor` | src/mm.c:272-294 | a zeroed table maps nothing |
| `PagingCode.PageMap.SetFpn` | src/mm.c:75-83 | changes the meaning of one entry |
| `PagingCode.PageMap.SetSwap` | src/mm.c:59-68 | changes the meaning of one entry |
| `PagingCode.PageMap.EnlistPgn` | src/mm.c:315-325 | pushes on the page list |
| `PagingCode.PageMap.Look` | include/mm.h:34-93 | reads presence, frame field and swap field by the entry's meaning |
| `PagingCode.PageMap.FindVictim` | src/mm-vm.c:606-667 | the list walk returns the first listed resident page, or fails when there is none |
| `PagingCode.SwapPages` | src/mm-vm.c:302-306 | the victim's frame goes out, then the target's comes in over it |
| `PagingCode.SwapEntries` | src/mm-vm.c:308-315 | both entries updated and the page listed |
| `PagingCode.ServeFault` | src/mm-vm.c:295-315 | the fault path on arrays of words and bytes is Fault |
| `PagingCode.PgGetPage` | src/mm-vm.c:279-321 | pg_getpage is GetPage, with its return code and the frame number it returns |
| `PagingCode.PgSetVal` | src/mm-vm.c:352-367 | pg_setval is SetVal |
| `PagingCode.PgGetVal` | src/mm-vm.c:329-344 | pg_getval is GetVal |
| `PagingCode.AllocPagesRange` | src/mm.c:158-198 | the loop takes RAM frames while there are any, then swap frames, and fails with -3000 when both are gone |
| `PagingCode.MapFrames` | src/mm.c:101-111 | the RAM loop of vmap_page_range, with the successor of each page listed |
| `PagingCode.MapSwaps` | src/mm.c:113-123 | the swap loop of vmap_page_range |
| `PagingCode.VmapPageRange` | src/mm.c:88-149 | both loops in sequence |
| `PagingCode.VmMapRam` | src/mm.c:209-241 | vm_map_ram is MapRange, with its return code |
| `ProcessCode.Process.constructor` | src/mm.c:272-294 | a fresh process has the initial tables and space |
| `ProcessCode.Process.AllocFromFree` | src/mm-vm.c:171-180 | the first-fit half of __alloc on linked nodes |
| `ProcessCode.Process.PlaceAtBreak` | src/mm-vm.c:190-208 | the break moves and the region is recorded; the pages to map are returned |
| `ProcessCode.Process.AllocAtBreak` | src/mm-vm.c:185-213 | the growing half of __alloc, mapping included |
| `ProcessCode.Process.AllocReg` | src/mm-vm.c:166-214 | __alloc is DoAlloc |
| `ProcessCode.Process.FreeAt` | src/mm-vm.c:232-240 | __free on a register of the table is FreeIn; the list then reaches no freed node if and only if the merge order was not the bad one |
| `ProcessCode.Process.FreeReg` | src/mm-vm.c:223-243 | for every register number, __free is FreeIn with its return code, or rejects the number, or, for exactly 30, leaves the table |
| `Scheduler.FirstEligible` | src/sched.c:75-90 | the queue found has a process and a slot, and none before it has both |
| `Scheduler.Get` | src/sched.c:66-101 | a call dispatches the head of one queue and leaves all others, or leaves all of them |
| `Scheduler.RestartFinds` | src/sched.c:91-96 | after a restart the scan ends at queue 139 at the latest, so there is no second restart |
| `Scheduler.GetChooses` | src/sched.c:75-98 | a call dispatches the head of the lowest-numbered queue with a process and a slot, and resets only when there is none |
| `Scheduler.NothingIff` | src/sched.c:71-83 | a call returns nothing if and only if nothing waits, or no waiting process has a slot and queue 139 is empty |
| `Scheduler.NothingOnlyOnce` | src/sched.c:78-83 | the call after such a reset dispatches the lowest waiting process |
| `Scheduler.RestartSkipsQueueZero` | src/sched.c:91-96 | a call that resets and dispatches takes the lowest waiting process if and only if queue 0 is empty |
| `Scheduler.QueueZeroPassedOver` | src/sched.c:91-96 | with processes in queues 0 and 139 alone and both without slots, a call serves queue 139 |
| `Scheduler.GetWithinBudget` | src/sched.c:54-58 | slot i stays between 0 and 140-i over every call |
| `Scheduler.ScanPass` | src/sched.c:75-98 | the scan keeps its invariant past every queue it cannot serve, with at most one restart |
| `Scheduler.ScanHit` | src/sched.c:84-90 | where the scan stops is the queue the atomic call serves |
| `Scheduler.ScanFromIs` | src/sched.c:75-98 | the scan, taken queue by queue with its one restart, comes to the atomic call from every point |
| `Fairness.RunFifo` | src/queue.c:18-41 | in every run, those served from a queue and then those still in it are exactly those that waited and then those that arrived, in order |
| `Fairness.BudgetBetweenResets` | src/sched.c:28-58 | between resets every dispatch from queue i costs one slot, so there are at most 140-i |
| `Fairness.RunWithinBudget` | src/sched.c:54-58 | budgets stay in bounds in every run of atomic calls |
| `Fairness.CallShortensWait` | src/sched.c:66-101 | every call brings a waiting process nearer, even one that serves another queue or none |
| `Fairness.ServedInTime` | src/sched.c:66-101 | after Wait(s, i, need) calls queue i has served need processes, whatever arrives |
| `Fairness.EpochsIsCeiling` | src/sched.c:54-58 | the number of budgets needed is the quotient rounded up |
| `Fairness.NoStarvation` | src/sched.c:66-115 | the process at place k of queue i is dispatched within 9870 + 9871 * ceil((k+1)/(140-i)) calls, hence within (k+1)*(2*9870+1), and is the (k+1)-st its queue serves |
| `Fairness.QueueZeroCanBePassedOver` | src/sched.c:91-96 | from the initial state: one process of priority 0 put back 140 times, one of priority 139 once, and the next call takes the latter |
| `SchedulerCode.Queue.constructor` | src/sched.c:33-37 | an empty queue with its slots |
| `SchedulerCode.Queue.Enqueue` | src/queue.c:18-22 | appends in place |
| `SchedulerCode.Queue.Dequeue` | src/queue.c:24-41 | the shifting loop removes exactly the head, or nothing from an empty queue |
| `SchedulerCode.ReadyQueues.constructor` | src/sched.c:28-43 | every queue empty with its full budget |
| `SchedulerCode.ReadyQueues.PutProc` | src/sched.c:103-115 | put and add append to one queue |
| `SchedulerCode.ReadyQueues.QueueEmpty` | src/sched.c:17-26 | true if and only if every queue is empty |
| `SchedulerCode.ReadyQueues.ResetSlots` | src/sched.c:54-58 | the loop restores every budget and touches no queue |
| `SchedulerCode.ReadyQueues.TakeFrom` | src/sched.c:84-90 | head out, one slot paid, all else alone |
| `SchedulerCode.ReadyQueues.ScanQueue` | src/sched.c:75-98 | one round of the scan: serve, pass, or reset and set the index back |
| `SchedulerCode.ReadyQueues.GetProc` | src/sched.c:66-101 | the scan terminates although its index is set back, and computes Get |
| `CpuLoop.CpuStepMoves` | src/sched.c:66-115 | every locked or unlocked part of a CPU's loop moves each process without copying or losing it |
| `CpuLoop.Exclusive` | src/os.c:52-104 | a process on a CPU is on no other CPU and in no queue |
| `CpuLoop.StepInv` | src/os.c:52-104 | every step of any CPU and of the loader keeps conservation and quantum accounting |
| `CpuLoop.ReachableInv` | src/os.c:46-107 | in every reachable state of any number of CPUs, in any interleaving, each loaded unfinished process is in exactly one place |
| `CpuLoop.QueuedOnce` | src/sched.c:66-115 | a queued process is in that queue once, in no other queue and on no CPU |
| `CpuLoop.QueueFits` | include/queue.h:7 | in every reachable state a queue holds no more processes than share its priority, so the array of ten is never overrun while at most ten do |
| `CpuLoop.QuantumKept` | src/os.c:54-82 | at the loop head: no process means no time left; a process has run at most one quantum since dispatch; one put back has run exactly one and has instructions left |
| `CpuLoop.RunsInOrder` | src/cpu.c:49-57 | over every run a process has executed exactly the instructions below its pc, each once and in order, on whatever CPUs |
| `CpuLoop.LoadKept` | src/os.c:120-138 | a process keeps the priority and code size it was last loaded with |
| `CpuLoop.CompletionExact` | src/os.c:66-75 | a process declared finished has executed exactly the code it was loaded with |
| `CpuLoop.RunOrder` | src/sched.c:66-115 | first in, first out under every interleaving: those CPUs have taken up from a priority, then those still queued, are exactly those loaded or put back unfinished, in order |
| `CpuLoop.StopsIff` | src/os.c:84-93 | a running CPU stops in a step if and only if it finds itself without a process after giving one up, with loading done; a failed first load never stops it |
| `CpuLoop.StoppedStays` | src/os.c:84-93 | a stopped CPU has no process and does nothing more |
| `CpuLoop.SoloQuantum` | src/os.c:94-104 | undisturbed, a process runs one instruction a slot until its time or its code is used up, whichever comes first |
| `CpuLoop.StepBudgetsIff` | src/sched.c:84-88 | a CPU step keeps all budgets in bounds if and only if it is not a dequeue whose slot has been spent since it was read |
| `CpuLoop.RaceOverdraws` | src/sched.c:84-88 | two CPUs that both saw the last slot make the unsigned count wrap to 2^32-1 |
| `CpuLoop.RaceReachable` | src/sched.c:84-88 | such a run from the initial state: one process of priority 139 and two idle CPUs |
| `CpuLoop.SoloGetProc` | src/sched.c:66-101 | undisturbed, also after an overdraft, the locked parts of get_mlq_proc add up to the atomic call: same process, queues and slots |
| `CpuLoop.SoloGetNothing` | src/sched.c:66-74 | with all queues empty it returns nothing at once, as the atomic call does |
| `CpuLoop.RunSlotsFit` | src/sched.c:84-88 | in every run slot counts are 32-bit words, overdrawn or not |
| `Barrier.StepInv` | src/timer.c:21-93 | every step of timer and devices keeps the barrier invariant |
| `Barrier.Lockstep` | src/timer.c:21-77 | in every interleaving each unfinished device has reported as many slots as the clock shows, or one more |
| `Barrier.NoneRunsAhead` | src/timer.c:44-53 | a device works on a slot only after every unfinished device has reported the one before |
| `Barrier.NoLostWakeUp` | src/timer.c:30-36 | a sleeper's condition really fails: no wake-up is lost although done is written under two locks |
| `Barrier.SomeStep` | src/timer.c:29-56 | until the timer has left its loop a proper step is enabled |
| `Barrier.ScanCounts` | src/timer.c:29-42 | at the tick the scan has counted every device as finished if and only if every device is |
| `Barrier.ExitsIff` | src/timer.c:37-56 | in every run, the round that a tick opens closes with the timer out of its loop if and only if every device was finished at that tick; otherwise it scans again |
| `Barrier.LeavesInTime` | src/timer.c:22-58 | once every device is finished, any run has at most 3n+3 steps, and one that cannot go on has the timer out of its loop |
| `Barrier.ExitedIsOver` | src/timer.c:54-58 | once the timer has left, every device is finished and no step is left |
| `Barrier.StepRank` | src/timer.c:29-77 | every proper step but the tick brings the tick strictly nearer |
| `Barrier.ClockAdvances` | src/timer.c:21-77 | with n devices at most 9n+2 steps, and two for each spurious wake-up, pass before the clock advances |

## Left out

- src/mem.c and src/paging.c: obsolete stubs.
- src/loader.c, `read_config`, `ld_routine` file handling and `main`: loading is one step that adds a process.
- `MEMPHY_dump`, `print_list_*`, `print_pgtbl`, `printQueue` and all other output.
- Sequential devices (`MEMPHY_mv_csr`, `MEMPHY_seq_read`, `MEMPHY_seq_write`): every device is created random-access.
- Code that nothing calls: `free_pcb_memph`, `init_pte`, `delist_pgn_node`, `find_min`, `INCLUDE`, `OVERLAP`; and `validate_overlap_vm_area`, which always returns 0.
- The other scheduler branch (src/sched.c:131-157), compiled out.
- First-in first-out replacement: pages are pushed and searched from the head, so the order is last in, first out (`NextVictim`, `MapVictim`).
- Shutdown of all CPUs: the code does not provide it.
- Locks and condition variables inside pthread, and failing `malloc`: a locked section is one step.
- Interleaving of reads: in `Interleaving` a write to RAM is one step whose frame is a free choice, and a read, which changes nothing, is none; a process has one operation under way at a time, as it is on one CPU at a time (`CpuLoop.Exclusive`).
- Interleaving inside the copy of one byte: it is one step, while the source reads the byte without a lock and writes it under one (src/mm.c:260-261).
- ProcessCode.Process.PlaceAtBreak: records the region before its pages are mapped, where the source does so after; nothing reads it in between.
- CpuLoop.ReachableInv: a queue has no end in the model; the source writes past a full queue of 10, which takes more than ten loaded processes of one priority (`QueueFits`).
- Number ranges: addresses, sizes, process numbers and the clock are unbounded naturals; the slot counts wrap at 2^32 in `CpuLoop` only, because atomic calls never reach zero by subtraction.
