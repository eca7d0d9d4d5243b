# Verified model of the JOS kernel core and the process sieve

This project models the parts of the repository that are hardest to get right and proves what they are
for: physical pages and two-level page tables, copy-on-write fork, the life and scheduling of
environments, message passing, the big kernel lock, the sieve of concurrent processes, and four small
algorithms whose correctness is not obvious.  `dafny verify dfyconfig.toml` checks everything.

| file | what it models |
|---|---|
| Mmu.dfy, PageSites.dfy, PageInvariant.dfy, PageTables.dfy | `sched/kern/pmap.c` and the memory part of `sched/kern/env.c`: the class `Memory` changes page records, tables and directories in place; its invariant says that every count is the number of references, kernel page tables included |
| Paging.dfy | two-level translation of addresses by the hardware: that it finds the page and the access the class `Memory` means, the self map, and the protection of the kernel |
| CowFork.dfy | `sched/lib/fork.c`: a machine at the grain of system calls and stores, refining one that copies on fork |
| CowMemory.dfy | the page system calls of CowFork.dfy are those of PageTables.dfy |
| EnvIds.dfy, Lottery.dfy, ParkMiller.dfy, Lifecycle.dfy | `sched/kern/sched.c`, `env.c`, `syscall.c`, `trap.c` on one CPU: the class `KernelState`, its specification `LifecycleSpec`, and runs of arbitrary events |
| SchedulingRuns.dfy, SystemCalls.dfy | what follows for programs: who runs next and by which number, and what each system call answers and changes |
| Ipc.dfy | `sys_ipc_try_send`, `sys_ipc_recv`, the system call stub and `sched/lib/ipc.c`, over the same kernel |
| Spinlock.dfy | the big kernel lock on any number of CPUs, one memory access at a time |
| Primes.dfy, Channel.dfy, Sieve.dfy | `fork/primes.c` over pipes and `sched/user/primes.c` over IPC, in every interleaving; Channel.dfy is what Ipc.dfy provides and the second relies on |
| StabSearch.dfy | `stab_binsearch` of `sched/kern/kdebug.c` |
| ExceptionStack.dfy | `page_fault_handler` against `_pgfault_upcall`, on bytes |
| FreeListPartition.dfy | the relinking of the free list in `check_page_free_list` |
| PrintNum.dfy | `printnum` and its callers against `strtol` |

## How the source is rendered

Code that changes things step by step is a method with the source's loops and branches, proved against
a function or a relation on values; what the source promises is then proved about that function, for
one call or for whole runs.  Concurrent code is a machine whose steps are the points where others can
interfere.  Machine words are integers in their range: 32-bit wrap-around (ids, `addr++`, `long`,
`pp_ref`, run counts) is written out.  A function that does not return (`env_run`, `sched_yield`) ends
with the mode of the machine changed.  Page numbers stand for pointers to `struct PageInfo`, and -1
for NULL.  Memory for page directories, whether an allocation succeeds, and what user programs do are
parameters or free choices, so that statements hold for all of them.

## Where the code departs from its comments

The model follows the code.

- `*pte && PTE_P` (pmap.c:523, 560) tests "nonzero"; `PageInvariant.PresentIsNonzero` shows when that is enough.
- `env_page_alloc` does not give its page back when `page_insert` fails.  A page is lost if and only if the permissions are valid, exactly one page is free and the table for the address is missing (`Memory.EnvPageAlloc`, `PageTables.LeakExample`).
- `sys_page_map` does not check `perm`.  Page bits in it fall on the page address, so that the entry names another page (`PageTables.PageBitsMislead`); counts stay exact only if the page address has those bits already (`Memory.EnvPageMap`, `PageInvariant.InsertCounts`).
- `pp_ref` has 16 bits.  Mapping a page once more keeps its count exact if and only if the count is below 65535 or the page is at that address already (`Memory.PageInsert`); a program can make the count wrap to 0 (`PageTables.WrapCount`).
- `user_mem_check` computes the end of the range in 32 bits and accepts some ranges that wrap, such as the 256 MB from KERNBASE on (`PageTables.WrappedAccepted`); `PageTables.AcceptedIff` says exactly when it is right.
- The guard at fork.c:28 never fires (`CowFork.GuardNeverFires`): a store to a read-only page makes that page writable (`CowFork.FaultMoveView`, `CowFork.StoreGoesThrough`).
- `dup_or_share` shares a copy-on-write page read-only, so `fork_v0` after `fork` is not an eager copy (`CowFork.EagerForkIsReference`, `CowFork.ForkThenEagerFork`).
- `stab_binsearch` fails on two consecutive addresses, and for the largest address, unless the upper entry happens to be looked at first (`StabSearch.SearchIsRight`, `ConsecutiveMiss`); below all entries it answers with `left <= right` (`SearchBelowAll`).
- `_pgfault_upcall` loses three bytes of eip when the trap-time stack pointer is UXSTACKTOP itself (`ExceptionStack.PopRestores`).
- A receive at an invalid address returns an error but leaves the environment marked as receiving, so a later send succeeds and its message is lost.  Messages are delivered faithfully on every continuation if and only if the address is valid (`Ipc.ReceiveFaithfulIff`, `Ipc.LostMessage`).
- A blocked receiver that is set runnable may run before a send; it then finds the number of the call in eax and panics in the system call stub.  Receives never panic on runs without such a wake, and after one they may (`Ipc.QuietNeverStuck`, `Ipc.WakePanicsIff`); no message is lost or made up by it (`Ipc.Delivery`).
- `sys_ipc_try_send` takes receive address 0 for "no page", although it is valid, and `ipc_recv` passes a null `pg` on as 0.  The permission reported may then be that of an earlier receive (`Ipc.PermTellsIff`, `Ipc.StalePermission`).
- The lottery draws from pool + 1 numbers, which gives the first eligible environment one ticket too many (`Lottery.LotteryShares`, `Lottery.SharesSum`).
- With the flag `-`, numbers are padded with minus signs on the left (`PrintNum.DashPadding`), and `%d` pads between the sign and the digits (`PrintNum.DecimalRoundTrip`).

## Model

| member | source | states |
|---|---|---|
| Mmu.MacrosAreMasks | sched/inc/mmu.h:30-42 | the shifts and masks of PDX, PTX and PGOFF are division and remainder, for every 32-bit address |
| Mmu.PgAddrOfParts | sched/inc/mmu.h:30-42 | PGADDR of the directory index, table index and offset of an address is that address |
| Mmu.PartsOfPgAddr | sched/inc/mmu.h:30-42 | PDX, PTX and PGOFF take back apart exactly what PGADDR glued together |
| Mmu.PgAddrIsOr | sched/inc/mmu.h:41-42 | the "or" of the shifted parts loses nothing: it is their sum |
| Mmu.EntryWordParts | sched/kern/pmap.c:499-502 | for any 32-bit permission word, the page number read back from a stored entry is that of the page overlaid with the page bits of the word, the flags are its low twelve bits with PTE_P, and the entry is nonzero |
| PageSites.StepPte | sched/kern/pmap.c:499-568 | writing one page-table entry moves exactly one reference and changes exactly one page number of one address space |
| PageSites.StepPde | sched/kern/pmap.c:412-429 | hooking or unhooking an empty page table moves one reference and changes no address space |
| PageSites.StepDir | sched/kern/env.c:162-196 | giving an environment a directory, or taking it away, moves one reference and leaves every other address space alone |
| PageInvariant.Partition | sched/kern/pmap.c:346-388 | free pages, pages kept back, kernel page tables, held pages and referenced pages partition physical memory; a count is positive exactly when some user-range entry, env_pgdir or entry of kern_pgdir refers to the page |
| PageInvariant.KernTableOnce | sched/kern/pmap.c:412-429 | a page table above UTOP has count 1, for its one entry in kern_pgdir; it is not free, and no user-range entry and no env_pgdir refers to it |
| PageInvariant.StructureIsPrivate | sched/kern/pmap.c:412-429 | no page directory and no page table, kernel page tables included, is mapped in any address space, and none is on the free list |
| PageInvariant.PresentIsNonzero | sched/kern/pmap.c:518-532 | on user entries "nonzero" and "has PTE_P" are the same test, which makes `*pte && PTE_P` correct |
| PageInvariant.CountExactIff | sched/kern/pmap.c:499-502 | one more reference keeps the 16-bit count exact if and only if the count was not 65535 |
| PageInvariant.RemoveKeepsInv | sched/kern/pmap.c:549-568 | clearing an entry and page_decref together keep all counts exact, and the page is freed exactly when that was its last reference |
| PageInvariant.InsertKeepsInv | sched/kern/pmap.c:489-505 | storing the entry of a page whose count was raised before keeps all counts exact, when the permission word adds no page bit |
| PageInvariant.InsertCounts | sched/kern/syscall.c:61-73 | after the store the count of the intended page is right if the permission word adds no page bit; if it adds one, the entry names another page and the count is one too high, in every such state |
| PageTables.PageBitsMislead | sched/kern/syscall.c:266-296 | sys_page_map of page 2 with permission 0x1000 stores an entry that names page 3 |
| PageInvariant.CreateTableKeepsInv | sched/kern/pmap.c:418-421 | the page pgdir_walk takes becomes a table with one reference, and leaves the free list |
| PageInvariant.KernTableKeepsInv | sched/kern/pmap.c:412-429 | the page pgdir_walk takes for an address above UTOP becomes an empty kernel page table of count 1, and changes no mapping of the kernel or of any environment |
| PageInvariant.KernStoreKeepsInv | sched/kern/pmap.c:457-461 | storing an entry of a kernel page table changes that kernel mapping, no count and no address space |
| PageInvariant.FreedExactly | sched/kern/env.c:409-456 | a page becomes free when an environment dies exactly if all references to it were that environment's |
| PageInvariant.InitKeepsInv | sched/kern/pmap.c:292-332 | the state page_init leaves satisfies the invariant, with no reference but that of kern_pgdir to itself |
| PageInvariant.KeptBackAddresses | sched/kern/pmap.c:316-331 | in physical addresses, what page_init keeps off the list is the first page, the page at 0x7000, and everything from 0xA0000 to the end of what boot_alloc has handed out |
| PageTables.Memory.constructor | sched/kern/pmap.c:292-332 | the free list is exactly the pages that are not kept back (page 0, the start-up code page, the I/O hole, the kernel), and nothing is held |
| PageTables.Memory.PageAlloc | sched/kern/pmap.c:346-360 | takes the head of the free list, cleared on request; NULL exactly when the list is empty |
| PageTables.Memory.PageFree | sched/kern/pmap.c:366-377 | the page becomes the head of the free list; the two panics are the preconditions |
| PageTables.Memory.PageDecref | sched/kern/pmap.c:383-388 | drops one 16-bit count and frees the page exactly at zero |
| PageTables.Memory.PgdirWalk | sched/kern/pmap.c:412-429 | finds the slot that the hardware reads for an address, with a directory entry above it that takes no access away; allocates a table only when asked, needed and possible; no address space changes |
| PageTables.Memory.PageLookup | sched/kern/pmap.c:518-532 | is lookup in the environment's map: NULL exactly when the address is unmapped, else the mapped page and its entry |
| PageTables.Memory.PageRemove | sched/kern/pmap.c:549-568 | is deletion from the map; every other address, every other environment and the held pages are as before |
| PageTables.Memory.PageInsert | sched/kern/pmap.c:489-505 | is map update, in any state, re-insertion included, for any permission word and any count; the access the hardware then grants at the address, the "and" of directory and table entry, is that of the permission word with PTE_P; it fails exactly when a table is needed and no page is free, and then nothing has changed; the invariant holds afterwards if and only if it fails, or the word adds no page bit and the count is below 65535 or the page was at that address already |
| PageTables.Memory.Exchange | sched/kern/pmap.c:497-502 | the three statements of page_insert after the walk, in their order: the 16-bit count, which may wrap in between, is right at the end exactly in those cases |
| PageTables.WrapCount | sched/kern/syscall.c:61-73 | a program that maps one page at 65536 addresses leaves its count at 0, with all the mappings in place |
| PageTables.Memory.StoreEntry | sched/kern/pmap.c:499-502 | the last statement of page_insert: the invariant holds again if and only if the permission word adds no page bit |
| PageTables.Memory.EnvSetupVm | sched/kern/env.c:162-196 | a fresh directory: kernel half that of kern_pgdir, user half empty; fails exactly without a free page |
| PageTables.Memory.EnvFree | sched/kern/env.c:409-456 | the nested loops drop exactly the dying environment's references; its map is empty, every other map is unchanged, no page is leaked |
| PageTables.Memory.FreeTable | sched/kern/env.c:427-445 | one round of the outer loop: one table emptied, unhooked and given back |
| PageTables.Memory.ClearEntry | sched/kern/env.c:437-440 | one round of the inner loop: one entry removed from the dying environment only |
| PageTables.Memory.EnvPageAlloc | sched/kern/syscall.c:46-58 | a zeroed page at the address on success, which the hardware finds there with exactly the access asked for; -E_NO_MEM exactly without a free page, or with just one and the table for the address missing; in the latter case, and in no other, a page is held by nobody afterwards |
| PageTables.LeakExample | sched/kern/syscall.c:46-58 | on a machine with three pages the first call of the first environment loses the last one |
| PageTables.Memory.EnvPageMap | sched/kern/syscall.c:61-73 | for any permission word and any count: the mapping read from the source environment appears at the destination, for the hardware too, write permission only from a writable mapping; each error exactly in its case, and then no change; the invariant holds afterwards if and only if it fails, or the word adds no page bit and the count fits into 16 bits |
| PageTables.Memory.EnvPageUnmap | sched/kern/syscall.c:305-321 | deletion from the map, silently nothing on an unmapped address |
| PageTables.Memory.UserMemCheck | sched/kern/pmap.c:643-664 | with the end of the range computed in 32 bits: accepts exactly when all pages from the first to that end allow the access; otherwise reports the first bad address |
| PageTables.AcceptedIff | sched/kern/pmap.c:643-664 | the check is right if and only if the rounded end of the range fits into 32 bits, or what is left after wrapping is refused because it lies above UTOP or because its only page does not allow the access |
| PageTables.WrappedAccepted | sched/kern/pmap.c:643-664 | 256 MB from KERNBASE on, none of it user memory, are accepted in every state and for every access |
| PageTables.Memory.UserStore | sched/kern/pmap.c:412-429 | whatever a user program stores through a writable mapping, tables, counts and all address spaces stay as they are |
| PageTables.Memory.KernWalk | sched/kern/pmap.c:412-429 | pgdir_walk on kern_pgdir: finds the slot of a kernel address, making a kernel page table from the free list if needed; fails exactly when one is needed and no page is free; no mapping changes |
| PageTables.Memory.BootMapRegion | sched/kern/pmap.c:444-462 | maps exactly the region asked for, page by page, unless it uses up the free list; every other kernel mapping, every address space and every count but those of new kernel page tables stay as they are |
| PageTables.Memory.MapKernel | sched/kern/pmap.c:183-219 | the calls of mem_init and of mem_init_mp together, which succeed unless they use up the free list: the invariant holds, and the kernel maps exactly the page records, the environments, all of memory and the stack of each CPU, with unmapped gaps between the stacks |
| PageTables.Memory.MapStacks | sched/kern/pmap.c:250-277 | the loop of mem_init_mp: a stack for each CPU, none in the way of another |
| Paging.HardwareFollowsMap | sched/kern/pmap.c:412-429 | two-level translation of any user address through memory arrives at the page of the environment's map and grants exactly the permissions recorded there, and grants nothing at an unmapped address |
| Paging.WalkIsHardware | sched/kern/pmap.c:412-429 | the slot pgdir_walk finds is the one the hardware uses, and the directory entry above it leaves the access to the slot |
| Paging.StoreIsSeen | sched/kern/pmap.c:489-505 | an entry stored there is what the hardware translates with and grants, whatever page it names |
| Paging.HardwareFollowsKernel | sched/kern/env.c:162-196 | above UTOP every environment sees the mappings of kern_pgdir, with the access of their table entries |
| Paging.UvptReadsEntries | sched/inc/memlayout.h:151-165 | what a program reads as uvpt[v] is the table entry of page number v, for every v |
| Paging.UvpdReadsDirectory | sched/inc/memlayout.h:151-165 | what it reads as uvpd[i] is entry i of its page directory |
| Paging.SelfMapReadOnly | sched/kern/env.c:162-196 | nothing in the self map may be written by a user program |
| PageTables.KernelIsProtected | sched/kern/pmap.c:183-277 | with the kernel mapped, user programs may write nothing from UTOP to the end of memory, and outside the self map they may read exactly the page records and the environments |
| PageTables.PermOkBits | sched/kern/syscall.c:17-24 | bit by bit: PTE_P and PTE_U are set, and no bit other than those, PTE_W and the three PTE_AVAIL ones |
| PageTables.WritableBit | sched/kern/syscall.c:26-33 | writable means bit 1 |
| PageTables.AllowsBits | sched/kern/pmap.c:643-664 | the test of user_mem_check: PTE_P is set in the entry, and every bit asked for |
| CowFork.StepRefines | sched/lib/fork.c:14-96 | each store, page-fault call, duppage call, exofork, allocation, unmapping or exit is a reference step (or none) on eagerly copied memories, and keeps the invariant |
| CowFork.CowRefinesEager | sched/lib/fork.c:206-251 | over every run, with forks of forks, deaths at any moment and any interleaving, the memories are those of the machine that copies at once |
| CowFork.ReadsAgree | sched/lib/fork.c:206-251 | after every run each started environment reads at each address what it would read under eager copying |
| CowFork.PagesStayFull | sched/lib/fork.c:14-96 | after every run each page still has 4096 bytes, if it had at the start |
| CowFork.StoreIsRead | sched/lib/fork.c:14-48 | a byte stored is read back at its address, and every other byte of every started environment reads as before |
| CowFork.InitInv | sched/kern/init.c:57-75 | any environments none of whose writable pages is mapped twice are a good start |
| CowFork.Isolation | sched/lib/fork.c:61-96 | a step changes only the memory of the environment that takes it, or of the child it is building |
| CowFork.ForkSnapshot | sched/lib/fork.c:225-237 | page by page, with the parent storing and faulting between its calls and everybody else doing as they like: a page the child gets is the parent's as it was at one moment of the fork, and stays so until the child starts |
| CowFork.WriteView | sched/lib/fork.c:14-48 | a store through a writable mapping changes one environment's view at one page |
| CowFork.FaultView | sched/lib/fork.c:36-47 | the allocation and the unmapping in pgfault change nothing any program can see |
| CowFork.FaultMoveView | sched/lib/fork.c:43-44 | the remapping in pgfault changes nothing for a copy-on-write page, and makes any other page writable |
| CowFork.GuardNeverFires | sched/lib/fork.c:27-29 | the test is 0 for every error code and every entry, so pgfault never panics on a page that is not copy-on-write |
| CowFork.StoreGoesThrough | sched/lib/fork.c:14-48 | every store to a mapped page can be carried out, given a free page: the steps of pgfault are enabled in turn, and the effect is the reference's store where the reference allows it, and a store after making the page writable where it does not |
| CowFork.GrantIs | sched/lib/fork.c:27-29 | the reference allows a store to a page exactly when making it writable changes nothing, that is when it is writable or copy-on-write |
| CowFork.DupShareView | sched/lib/fork.c:88-92 | a page that is neither writable nor copy-on-write is copied by being shared |
| CowFork.DupChildView | sched/lib/fork.c:80-83 | the child's mapping counts as a copy at once, unless the parent's was writable |
| CowFork.DupParentView | sched/lib/fork.c:85-87 | for a writable page the parent's remapping is the moment of the copy |
| CowFork.StartView | sched/lib/fork.c:247-248 | marking the child runnable changes no memory |
| CowFork.WritableIsAlone | sched/lib/fork.c:51-57 | a page mapped writable is seen nowhere else, which is why the parent is marked copy-on-write again |
| CowFork.EagerForkIsReference | sched/lib/fork.c:110-143 | dup_or_share is the eager copy if and only if the page is not copy-on-write only |
| CowFork.ForkThenEagerFork | sched/lib/fork.c:145-251 | a program that calls fork and then fork_v0 runs into this: its page is copy-on-write only by then, and the second child is not an eager copy |
| CowFork.System.DupPage | sched/lib/fork.c:61-96 | the two system calls of duppage (one for a read-only page) amount to one eager copy |
| CowFork.System.ForkPages | sched/lib/fork.c:225-237 | the loop gives the child every page below UTOP but the exception stack |
| CowFork.System.ForkChild | sched/lib/fork.c:206-251 | afterwards the child has the parent's memory with a new exception stack, and nothing else has changed for anyone |
| CowMemory.AllocMeant | sched/kern/syscall.c:218-248 | what sys_page_alloc does to page tables and page contents is what the fork machine takes it to do |
| CowMemory.MapMeant | sched/kern/syscall.c:266-296 | the same for sys_page_map, within one environment or between two |
| CowMemory.UnmapMeant | sched/kern/syscall.c:305-321 | the same for sys_page_unmap |
| CowMemory.FreeIsFresh | sched/kern/pmap.c:346-360 | a page on the free list is mapped by nobody, as the fork machine assumes of the page it is given |
| CowMemory.AgreeSameView | sched/lib/fork.c:51-57 | the pages in which the two may differ are seen by no program |
| CowMemory.SysPageAlloc | sched/kern/syscall.c:218-248 | the call on the class Memory is the call of the fork machine |
| CowMemory.SysPageMap | sched/kern/syscall.c:266-296 | the call on the class Memory is the call of the fork machine |
| CowMemory.SysPageUnmap | sched/kern/syscall.c:305-321 | the call on the class Memory is the call of the fork machine |
| ParkMiller.Generator.LcgParkMiller | sched/kern/sched.c:28-62 | the result is state * 48271 mod 2^31 - 1, in 1..N-1, and no intermediate leaves 32 bits |
| ParkMiller.ProductsDiffer | sched/kern/sched.c:58-61 | the case a == b is impossible, because 48271 and 3399 have no common factor |
| ParkMiller.TimesInRange | sched/kern/sched.c:28-62 | the product is never 0 modulo N |
| ParkMiller.StepUndone | sched/kern/sched.c:28-62 | multiplying by the inverse of 48271 undoes a step |
| ParkMiller.StepInjective | sched/kern/sched.c:28-62 | two different states have different successors |
| ParkMiller.DrawIsPower | sched/kern/sched.c:25-68 | from seed 1 the k-th value is 48271^k mod N, the minstd_rand sequence of section [rand.predef] of ISO C++ |
| ParkMiller.TenThousandth | sched/kern/sched.c:25-68 | the 10000th value is 399268537, the check value of that section |
| Lottery.SomeoneWins | sched/kern/sched.c:205-224 | for every winner up to the pool an environment is chosen exactly when one is eligible |
| Lottery.WinsOn | sched/kern/sched.c:214-224 | an environment is chosen exactly by the winners in its own interval of the running total |
| Lottery.LotteryShares | sched/kern/sched.c:200-225 | of the pool + 1 winners, as many as it has tickets choose an environment, and one more for the first eligible one |
| Lottery.SharesSum | sched/kern/sched.c:200-225 | all shares together are the pool + 1 numbers drawn from, whenever somebody is eligible |
| SchedulingRuns.YieldChooses | sched/kern/sched.c:200-225 | with the product of the seed and 48271 modulo 2^31 - 1 as the new seed, an eligible environment runs next exactly when that number modulo pool + 1 falls into its interval of the running total |
| SchedulingRuns.YieldRuns | sched/kern/sched.c:200-225 | the chosen environment is the only one running, its run count and no other goes up, and the draw is recorded |
| SchedulingRuns.SomeSeedChooses | sched/kern/sched.c:200-225 | every eligible environment is chosen by some seed from 1 to N - 1 |
| SchedulingRuns.TrapDraws | sched/kern/sched.c:200-225 | a trap that comes back to user mode draws once or not at all, and a timer tick or a yield draws |
| SchedulingRuns.KthDraw | sched/kern/sched.c:25-68 | after every run from boot, the k-th draw is 48271^k modulo 2^31 - 1 modulo pool + 1, and the environment whose interval it falls into runs |
| Lottery.History.Add | sched/kern/sched.c:185-198 | the ring always holds exactly the last 10000 draws, draw k at k mod 10000 |
| Lottery.DistanceShrinks | sched/kern/sched.c:169-183 | a round-robin yield runs a waiting environment or brings its turn strictly closer |
| Lottery.RoundRobinServes | sched/kern/sched.c:169-183 | an environment that stays runnable runs within n - 1 yields, whatever the others do |
| EnvIds.NextIdIs | sched/kern/env.c:221-224 | in 32-bit two's complement the generation goes up by one and restarts at 1 instead of turning negative |
| EnvIds.IdWellFormed | sched/kern/env.c:221-224 | every id is positive and its low ten bits are its slot |
| EnvIds.IdsRepeat | sched/kern/env.c:221-224 | two ids are equal exactly for the same slot a multiple of 2^19 - 1 allocations apart |
| Envs.StaleIdRejected | sched/kern/env.c:73-107 | envid2env rejects an id from j allocations ago for every j from 1 to 2^19 - 2, and accepts it again exactly at multiples of the period |
| LifecycleSpec.AllocKeeps | sched/kern/env.c:206-269 | env_alloc takes the head of the free list; it fails exactly when no environment is free or there is no memory, and touches no other environment |
| LifecycleSpec.FreeKeeps | sched/kern/env.c:452-455 | the environment goes back to the free list, which holds every free one once |
| LifecycleSpec.YieldKeeps | sched/kern/sched.c:71-138 | sched_yield runs an environment exactly when one is eligible; otherwise the monitor takes over: one CPU alone never halts |
| LifecycleSpec.TrapKeeps | sched/kern/trap.c:248-305 | every trap keeps the invariant, from user mode to the next time the kernel is left |
| LifecycleSpec.IdsInUse | sched/kern/env.c:221-224 | the id of every environment in use is positive and names its slot |
| LifecycleSpec.FoundExactly | sched/kern/env.c:73-107 | looking only at the slot an id names misses no environment that has the id and may be touched |
| LifecycleSpec.LifecycleSafety | sched/kern/trap.c:248-305 | after every sequence of events: the free list holds exactly the free environments; none is dying; tickets are 2 to 50; user mode runs exactly one RUNNING environment, curenv; the machine stops only with nothing runnable |
| Lifecycle.KernelState.constructor | sched/kern/env.c:115-125 | env_init: all environments free, on the free list in the order of the array |
| Lifecycle.KernelState.EnvRun | sched/kern/env.c:500-524 | the old environment becomes runnable again, the new one running and current, and its run count goes up |
| Lifecycle.KernelState.LotteryDraw | sched/kern/sched.c:200-225 | the two loops choose the environment the draw selects (which one that is, SchedulingRuns says), record it and run it; if none is eligible only the seed changes |
| Lifecycle.KernelState.RoundRobin | sched/kern/sched.c:169-183 | runs the first runnable environment in circular order after the current one, else the current one if it may run |
| Lifecycle.KernelState.SchedYield | sched/kern/sched.c:71-108 | lottery, then sched_halt if it returned |
| Lifecycle.KernelState.SchedHalt | sched/kern/sched.c:114-147 | the monitor if nothing is runnable, running or dying, else the CPU goes to sleep without a current environment |
| Lifecycle.KernelState.EnvAlloc | sched/kern/env.c:206-269 | new id, parent, tickets and status for the head of the free list, or the error the source returns |
| Lifecycle.KernelState.EnvFree | sched/kern/env.c:452-455 | from any state in which the environment is in use: the whole lifecycle invariant except for curenv holds, and the free list is the old one with the environment in front |
| Lifecycle.KernelState.EnvDestroy | sched/kern/env.c:463-482 | marks an environment running elsewhere as dying, else frees it, and schedules if it was current |
| Lifecycle.KernelState.Envid2Env | sched/kern/env.c:73-107 | finds the one environment in use that has the id and may be touched, wherever it is in the array, or an error when there is none |
| Lifecycle.KernelState.SpendTicket | sched/kern/trap.c:230-232 | the timer and the set-priority call take one ticket, never below 2 |
| Lifecycle.KernelState.SysExofork | sched/kern/syscall.c:137-158 | the slot taken, both results and every field of the child, as in SystemCalls.ExoforkReturnsTwice and ExoforkFails |
| Lifecycle.KernelState.SysEnvSetStatus | sched/kern/syscall.c:167-187 | the status changes only for a valid status and a permitted id |
| Lifecycle.KernelState.SysEnvDestroy | sched/kern/syscall.c:110-124 | a permitted environment is destroyed, the caller included |
| Lifecycle.KernelState.SysIpcRecv | sched/kern/syscall.c:418-431 | marks the caller as receiving first, then fails on a bad address, or stores the address, blocks and schedules |
| Lifecycle.KernelState.SysIpcTrySend | sched/kern/syscall.c:361-405 | delivers sender, value, permission and result 0 to a blocked receiver and makes it runnable, else an error and no change |
| Lifecycle.KernelState.Trap | sched/kern/trap.c:260-305 | the whole trap path has the effect its specification states, and keeps the invariant |
| SystemCalls.ExoforkReturnsTwice | sched/kern/syscall.c:137-158 | sys_exofork returns to the caller the positive id of the slot it took, and leaves there 0 for the child to return, not runnable, with the caller's id as parent and the caller's tickets; no other environment changes |
| SystemCalls.ExoforkFails | sched/kern/syscall.c:137-158 | without a free environment or without memory the caller gets a negative result, the right one, and no environment changes |
| SystemCalls.AnswerStays | sched/kern/trap.c:276-305 | what a call returns is what the caller finds in eax, whoever runs in between |
| SystemCalls.SetStatusAnswers | sched/kern/syscall.c:167-187 | exactly the named environment gets the status and the caller 0; on an invalid status or id the caller gets the error and nothing else changes |
| SystemCalls.DestroyAnswers | sched/kern/syscall.c:110-124 | the named environment is free afterwards and nobody in use has its id; on a bad id nothing changes but the result |
| SystemCalls.TrySendAnswers | sched/kern/syscall.c:361-405 | each error exactly in its case and then nothing else changes; else the receiver has sender, value and result 0 and is runnable |
| SystemCalls.RecvAnswers | sched/kern/syscall.c:418-431 | on a valid address the caller is blocked and not running; on any other it goes on with an error, marked as receiving all the same |
| SystemCalls.TicketsGoDown | sched/kern/trap.c:226-235 | a timer tick or a set-priority call takes one ticket from a caller with more than 2 and none at 2, and changes nobody else |
| Ipc.StepKeeps | sched/kern/syscall.c:361-431 | every step, wakes of blocked receivers included, keeps what was sent to each environment and what its receives returned in agreement, receives at invalid addresses excepted |
| Ipc.Delivery | sched/lib/ipc.c:22-37 | after every run an environment's receives have returned exactly the messages successfully sent to it, in order, but for one delivered and not yet read, whoever sets whom runnable |
| Ipc.ReceiveFaithfulIff | sched/kern/syscall.c:418-431 | after a receive every continuation delivers faithfully if and only if its address is valid |
| Ipc.LostMessage | sched/kern/syscall.c:418-431 | the continuation that fails: the receive has returned an error, a later send succeeds all the same, and its message is never returned |
| Ipc.WakePanicsIff | sched/kern/syscall.c:167-187 | after an environment has been set runnable no run without further wakes makes it panic in its receive, if and only if it was not blocked in one |
| Ipc.WokenMayPanic | sched/lib/syscall.c:7-33 | the run that fails: whatever the lottery does, the woken receiver may come to run before any send, finds the call number in eax, panics in the stub, and returns nothing |
| Ipc.QuietNeverStuck | sched/lib/syscall.c:7-33 | from the start of the system, on every run in which nobody sets a blocked receiver runnable, no receive panics |
| Ipc.Rendezvous | sched/kern/syscall.c:361-405 | on every such run a send succeeds only when its receiver is blocked in its receive with everything before read |
| Ipc.MessagesAreChannels | sched/kern/syscall.c:361-431 | on every such run the messages to an environment are a channel of the kind the sieve over IPC is built on: each step leaves it alone, adds a value when the reader waits with nothing unread, or reads the next value |
| Ipc.PermTellsIff | sched/lib/ipc.c:8-21 | the permission reported is nonzero exactly for a transferred page, if and only if it is not left over from an earlier receive at a receiver with address 0 |
| Ipc.StalePermission | sched/lib/ipc.c:8-21 | a run of two environments from the start of the system to a send without a page that leaves a permission behind |
| Ipc.Protected | sched/kern/env.c:95-103 | no environment can change another that is neither its child nor blocked in a receive, except for whose turn it is to run |
| Spinlock.StepInv | sched/kern/spinlock.c:60-124 | every access of every CPU to the lock keeps: one holder at most, taken exactly while held, named exactly by its holder |
| Spinlock.BigKernelLock | sched/kern/trap.c:260-269 | for any number of CPUs and every interleaving: at most one CPU holds the lock, neither debugging panic fires, each entry acquires once and each exit releases once; that entries happen is FreeLockIsTaken and EveryCpuGetsIn |
| Spinlock.HolderReleases | sched/kern/spinlock.c:83-124 | a holder can always go on, and drops the lock within a fixed number of its own steps |
| Spinlock.FreeLockIsTaken | sched/kern/spinlock.c:60-81 | from every state in which the lock is free, a CPU that is outside, on its way in or spinning holds the lock and is in the kernel after at most five moves of its own |
| Spinlock.EveryCpuGetsIn | sched/kern/spinlock.c:60-124 | after every run of any number of CPUs, each CPU can still get into the kernel, within 11 moves |
| Spinlock.GetsOut | sched/kern/spinlock.c:83-124 | a CPU in the kernel can leave it either way, to user mode or halted, and then the lock is free and nobody is named as its owner |
| Sieve.StepInv | fork/primes.c:49-106 | every step of the generator or of any filter keeps the invariant of the whole chain |
| Sieve.PipeIsLevel | fork/primes.c:80-103 | each pipe carries a prefix of what a sequential sieve sends through it, and all of it once closed |
| Sieve.PipeContents | fork/primes.c:94-102 | the numbers in a pipe increase, and no prime printed earlier in the chain divides them |
| Sieve.PrintedPrimes | fork/primes.c:64 | the k-th stage prints the k-th prime: the output is always a prefix of the primes |
| Sieve.FinalOutput | fork/primes.c:35-46 | when main returns every process has ended and exactly the primes up to n are printed |
| Sieve.WriterHasReader | fork/primes.c:88-93 | a pipe that may still be written to has a live reader, so no write fails |
| Sieve.SieveSafety | fork/primes.c:35-46 | for every n, every pipe capacity and every interleaving: a prefix of the primes, and all of them at the end |
| Sieve.NoDeadlock | fork/primes.c:49-106 | until main returns some process can take a step |
| Sieve.StepProgress | fork/primes.c:49-106 | every step increases a measure of numbers written, numbers read and processes ended |
| Sieve.SieveTerminates | fork/primes.c:35-46 | no run is longer than a bound in n, and a run that cannot go on has printed exactly the primes up to n |
| Sieve.EndlessSieve | sched/user/primes.c:13-52 | the sieve over IPC never gets stuck and only ever prints a prefix of the primes |
| Sieve.PipesAreChannels | sched/user/primes.c:13-52 | every step of the sieve over IPC does to each pipe what a step of the kernel can do to the messages of an environment |
| Primes.LevelIs | fork/primes.c:94-102 | level k of the sieve holds, in order, exactly the numbers that no earlier prime divides |
| Primes.HeadIsPrime | fork/primes.c:64 | the first number of every level is prime |
| Primes.HeadsArePrimes | fork/primes.c:35-106 | the first numbers of all levels are exactly the primes up to n, in order |
| StabSearch.StabBinsearch | sched/kern/kdebug.c:59-106 | the loops compute the search of the specification and end on every table, sorted or not |
| StabSearch.ExactDrops | sched/kern/kdebug.c:86-93 | an exact match that leaves the range alone is followed by an inexact one: the reason the loop ends |
| StabSearch.SearchIsRight | sched/kern/kdebug.c:41-43 | on a table sorted by value with an entry at or below the address, the result brackets the address if and only if the table is separable there |
| StabSearch.NotBothValues | sched/kern/kdebug.c:41-43 | in particular when the address and its successor are not both values |
| StabSearch.EmptyExactly | sched/kern/kdebug.c:96-97 | on any table left > right holds exactly when the range has no entry of the type |
| StabSearch.SearchBelowAll | sched/kern/kdebug.c:84-86 | when all entries lie above the address, the result is left <= right although none contains it |
| StabSearch.ConsecutiveMiss | sched/kern/kdebug.c:86-93 | entries at 5 and 6: the search for 5 returns the entry at 6 |
| StabSearch.DocumentedExample | sched/kern/kdebug.c:45-57 | the worked example of the documentation, for every table with those entries |
| ExceptionStack.Machine.PageFault | sched/kern/trap.c:350-381 | the frame pushed, the registers the upcall starts with, or destruction or panic, exactly as specified; what that is, PushKeeps and PushFails say |
| ExceptionStack.Machine.UpcallReturn | sched/lib/pfentry.S:67-91 | the instructions have together the effect specified |
| ExceptionStack.PushKeeps | sched/kern/trap.c:350-381 | the handler starts at the upcall with esp at the new frame and all other registers kept; the fault address and error code are the first two words there and all 13 words are in place; on the exception stack the frame lies wholly below the trap-time esp with one zero word between; no byte outside is written |
| ExceptionStack.PushFails | sched/kern/trap.c:350-381 | the environment is destroyed exactly without an upcall or an exception stack, and the kernel panics exactly when the frame and the word above it do not fit |
| ExceptionStack.PopRestores | sched/lib/pfentry.S:67-91 | popping an intact frame restores every register if and only if the trap-time stack is not the empty exception stack (or eip is the one value that survives) |
| ExceptionStack.TopClash | sched/lib/pfentry.S:67-72 | with esp at UXSTACKTOP the pushed return address and the adjusted esp overlap, and three bytes of eip are lost |
| ExceptionStack.FaultUnwinds | sched/lib/pfentry.S:34-91 | for every nesting of faults, each return restores eip, esp, eflags and all general registers of its own fault, and nothing at or above its esp has changed |
| ExceptionStack.DepthFits | sched/kern/trap.c:350-373 | every level takes a frame and a scratch word below all earlier ones, so at most 73 levels fit |
| FreeListPartition.RelinkLowFirst | sched/kern/pmap.c:704-717 | the loop with two tail pointers leaves a null-terminated list of the same pages, those below the limit first, order kept in both parts, counts untouched |
| FreeListPartition.LowFirstIs | sched/kern/pmap.c:704-717 | the same pages with the same multiplicities, no low page after a high one |
| FreeListPartition.SelectStable | sched/kern/pmap.c:709-713 | two pages of one kind keep their order |
| FreeListPartition.HighIs | sched/kern/pmap.c:710 | the test PDX(page2pa(p)) >= 1 is: page number 1024 or above |
| FreeListPartition.RelinkKeepsInv | sched/kern/pmap.c:704-717 | relinking keeps the whole page invariant and moves no page |
| PrintNum.PrintedIs | sched/lib/printfmt.c:36-55 | the output is the numeral padded on the left; its length is the larger of width and digit count |
| PrintNum.SprintBuf.Putch | sched/lib/printfmt.c:266-272 | the buffer keeps a prefix of the output, and all of it is counted |
| PrintNum.SprintBuf.PrintNum | sched/lib/printfmt.c:36-55 | the recursion and the padding loop put out exactly the specified characters |
| PrintNum.SprintBuf.PrintDecimal | sched/lib/printfmt.c:198-205 | the sign goes out before the padding |
| PrintNum.SprintBuf.Finish | sched/lib/printfmt.c:285-288 | the kept prefix is terminated, and the full length is returned |
| PrintNum.Strtol | sched/lib/string.c:246-291 | skips blanks, reads a sign and a base prefix, and returns the wrapped 32-bit value of the longest run of digits and its end |
| PrintNum.NumeralValue | sched/lib/printfmt.c:36-55 | the digits printed have the number as their value |
| PrintNum.RoundTrip | sched/lib/string.c:246-291 | reading back a blank- or zero-padded number in bases 2 to 16 takes the whole output, and gives the number if and only if it is below 2^31 |
| PrintNum.DecimalRoundTrip | sched/lib/printfmt.c:198-205 | %d reads back for every int above the least one if and only if no blank comes between sign and digits |
| PrintNum.DashPadding | sched/lib/printfmt.c:111-114 | with the flag "-" numbers are padded with minus signs and read back exactly where no padding is printed, or one sign before a 0 |
| PrintNum.HexRoundTrip | sched/lib/string.c:246-291 | after blanks and a sign, "0x" and a hexadecimal numeral in lower or upper case are read with base 16 or 0 up to what follows, with the sign, wrapped to 32 bits |
| PrintNum.OctalRoundTrip | sched/lib/string.c:246-291 | with base 0, "0" and an octal numeral are read as octal |
| PrintNum.PlainRoundTrip | sched/lib/string.c:246-291 | with base 0, a numeral that does not begin with 0 is read as decimal |

## Left out

Contracts stated for less than every state of the real machine:

- PageTables.Memory.BootMapRegion: for a region nothing is mapped in yet and before any environment has a directory, which is when the source calls it; when no page is left for a table, where the source stores through NULL, it stops.
- CowFork.CowRefinesEager: no page is shared on purpose, a store to a page that is not mapped is not a step, the pages of a child whose parent dies in the middle of fork, which can never run, may be allocated anew, PFTEMP is not used by programs, allocations succeed, and I/O pages and the exception stack are not forked; TLB contents are not modelled.
- Paging.HardwareFollowsMap: the accessed and dirty bits that the hardware sets, and `CR0.WP`, are not modelled; user programs are the only ones whose access is stated.
- LifecycleSpec.LifecycleSafety: one CPU, the build default; with more, `lottery` can choose an environment that runs elsewhere.
- Lottery.LotteryShares: one CPU for the same reason; the pool is at most 51200, so `int` does not overflow.
- Ipc.Delivery: receives name valid addresses; ReceiveFaithfulIff shows that this is necessary.  Whether the page part of a send succeeds is a parameter of the event, and the order of pages is not stated.
- Lifecycle.KernelState.SysIpcTrySend: whether the page of a send is found and mapped is a parameter.
- Spinlock.BigKernelLock: memory is sequentially consistent (the lock uses `xchg`), and faults inside the kernel, which panic, are not steps.
- Sieve.SieveTerminates: `pipe`, `fork`, `read` and `write` succeed and `n` is below the largest int, where the counter would overflow.
- Sieve.EndlessSieve: its pipes and the messages of the kernel obey the same channel steps (PipesAreChannels, Ipc.MessagesAreChannels), but its processes are not run as environments of that kernel; without the limit of 1024 environments and 32-bit overflow of the counter.
- StabSearch.StabBinsearch: at most 2^30 entries, so that `l + r` is an int.
- ExceptionStack.FaultUnwinds: the word below the trap-time esp is user memory; elsewhere the instruction that writes it faults for good.
- PrintNum.Strtol: signed overflow, undefined in C, wraps around.

Not modelled:

- The rest of `mem_init`, large pages (`TP1_PSE` is not defined), `mmio_map_region`, and changes of kern_pgdir after an environment has copied it.
- `boot_alloc`, `check_*` functions except the relinking, and the contents of trap frames other than eax.
- Argument checks of `sys_page_alloc`, `sys_page_map` and `sys_page_unmap` (range and alignment) and the permission check of their environment ids; the id lookup itself is modelled.
- The page calls inside `sys_ipc_try_send`, among them its reading of an entry that does not exist when the page's table is missing; `ipc_find_env`; the retry loop of `ipc_send`, of which a failed try changes nothing and a success is one send.
- ELF loading, `context_switch`, `lcr3`, interrupts inside the kernel, spurious interrupts and breakpoints.
- `debuginfo_eip` around its searches, and `get_caller_pcs`.
- The rest of `vprintfmt` (strings, characters, error names, parsing of the format), and the string functions other than `strtol`.
- stdout buffering and file descriptor bookkeeping in `fork/primes.c`; the handling of failing system calls there.
- `sfork`, the other programs under `sched/user/`, `shell/`, `fisopfs/`, device and boot code, `xargs`, which are input and output, hardware tables, file-system layout and command plumbing.
