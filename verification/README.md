# Verified model of NJU-OS

A Dafny model of the hard parts of the NJU-OS kernel and its run-time libraries, with proofs
that every operation keeps its data structures and does what its callers rely on.

* **Page server** (`FreeSet`, `MemServer`): the array of page nodes whose free nodes are
  threaded into one list and cache the length of the run that starts at each of them. Everything
  stored about a free page turns out to be a function of the *set* of free pages, and every
  delivery and return keeps that canonical form.
* **Object allocator** (`PageAlloc`, `PoolLists`, `AllocState`, `Accounting`, `AllocTrace`,
  `Pmm`, `PmmInit`, `LossExample`): small objects inside a page behind in-page headers, one list
  of blocks per CPU, `kalloc`, `kfree` and the boot-time layout. `PmmInit.BootAndRun` lays the
  allocator out and runs any sequence of requests on any CPUs; its trace of states says what each
  request did.
* **Page tables** (`Bits`, `PageTree`, `Vme`): the four-level tree of section 4.5 of the Intel SDM,
  Volume 3A, in raw memory. The abstract value is a partial map from user addresses to leaf
  entries; `Lifecycle` runs `protect`, any sequence of `map` calls and `unprotect`.
* **Word arithmetic** (`WordDiv`, `Multi3`, `SignedWords`, `RestoringDiv`, `BitCount`,
  `Int64Div`): half-word division and multiplication for any word width, and 64-bit division
  from 32-bit halves.
* **Kernel threads** (`TwoLockQueue`, `Scheduler`, `SchedulerRuns`, `RecordTasks`): the ready queue as
  interleaved single steps of one enqueuer and one dequeuer, and the life of a task over all
  interleavings of `kmt_create`, `kmt_teardown` and `kmt_schedule` on any number of CPUs. In the
  scheduler one list operation is one step, which `TwoLockQueue` justifies for the ready queue;
  `SchedulerRuns` is about whole passes through the handler and whole calls.
* **System call profile** (`SyscallTimes`): the sorted, doubly linked accumulator of `sperf`.

Pointers to page nodes are indices into the node array, with -1 for null; other addresses are
integers. Words are natural numbers below a power of two and every wrap-around is written out
(`Wrap`, `Signed` and the bit operations of `Bits`). Where the code updates memory in place the
model is a class whose methods carry the code's loops, proved against ghost fields that name the
abstract value (`free`, `lists`, `holder`, `objs`, `tabs`, `entries`). Interleavings are a step
function over a state value. `Arith` and `Lists` hold shared facts about numbers and sequences.
Sub-methods such as `Server.HandOut` or `Memories.Descend` are pieces of one C function, cut out
to keep each proof short.

## Where the code does not do what its comments or callers expect

* The append branch of `memserver_receive` is guarded by `own==1`
  (`NJU-OS/dir/lab2/src/mempool.c:370`), but both callers clear `own` first (lines 170-174 and 200).
  A block freed above every free page of a non-empty list is therefore in no list afterwards.
  `Accounting.LostIff` gives the exact condition, `LossExample.LoseOne` an instance, and
  `Allocator.Run` accounts for every page lost in a run. Entered with `own==1`, the same code
  restores the structure exactly: `Server.DeliverThenReceive`.
* `record` treats the list head like any other entry when it moves a command up. Once a command's
  total exceeds the head's time of 1e9 the two change places, and the next call meets a node
  without a command. `SyscallTimes.HeadStaysIff` says exactly when this happens, and
  `HeadLostExample` is an instance.
* `pmm_init` multiplies the size of a pool record by itself (`NJU-OS/dir/lab2/src/pmm.c:76`),
  which wastes space but keeps the records apart.

## Model

| member | source | states |
|---|---|---|
| MemServer.Server.constructor | NJU-OS/dir/lab2/src/pmm.c:98-116 | the server starts with every page free in one run, in canonical form |
| MemServer.Server.MemserverDelivery | NJU-OS/dir/lab2/src/mempool.c:224-299 | first fit, exactly: the lowest block of max(1, combpage) free pages whose page number is a multiple of that count; NULL, with nothing changed, if and only if there is none; the block leaves the free set, its nodes are chained, counted down and owned, and no held node is touched |
| MemServer.Server.HandOut | NJU-OS/dir/lab2/src/mempool.c:236-289 | cutting any block of a run out keeps the server canonical for the smaller free set |
| MemServer.Server.LowerCounts | NJU-OS/dir/lab2/src/mempool.c:250-254 | the backward scan ends at the run head and leaves exactly the distances to the block as counts |
| MemServer.CutCanonical | NJU-OS/dir/lab2/src/mempool.c:238-282 | in all four ways of cutting, every remaining free node again holds its run length and successor |
| MemServer.NoFitInRun | NJU-OS/dir/lab2/src/mempool.c:238 | a run that fails the quotient test holds no aligned block |
| MemServer.FirstFitInRun | NJU-OS/dir/lab2/src/mempool.c:238-239 | a run that passes it holds one, and the rounding picks the lowest |
| MemServer.Server.MemserverReceive | NJU-OS/dir/lab2/src/mempool.c:301-392 | a returned block joins the free set in address order and coalesces with both neighbouring runs, in canonical form; when it is not relinked nothing but its own first count changes; which of the two is decided by the free set and the own mark alone |
| MemServer.Server.Locate | NJU-OS/dir/lab2/src/mempool.c:340-367 | the walk over run heads stops at the first free node above the block with the last node of the run below it |
| MemServer.Server.Insert | NJU-OS/dir/lab2/src/mempool.c:342-365 | linking below a run, in front of the list or between two runs, keeps the canonical form |
| MemServer.Server.Append | NJU-OS/dir/lab2/src/mempool.c:370-386 | linking above every run keeps the canonical form |
| MemServer.Server.FillEmpty | NJU-OS/dir/lab2/src/mempool.c:328-337 | a block returned to an empty list becomes the whole list |
| MemServer.Server.RepairBelow | NJU-OS/dir/lab2/src/mempool.c:358-364 | the backward scan repairs the counts of exactly the run below the block |
| MemServer.Server.DeliverThenReceive | NJU-OS/dir/lab2/src/mempool.c:224-392 | handing a block out and taking it back with its own marks set restores every field of every free node |
| MemServer.SameFreeSameNodes | NJU-OS/dir/lab2/src/mempool.c:224-392 | two servers with the same free pages agree on pages and on every field of every free node, so the free set determines all three |
| MemServer.ServerListIsFreeSet | NJU-OS/dir/lab2/src/mempool.c:224-392 | walking next from pages meets exactly the free nodes, each once, in strictly ascending order |
| FreeSet.NextAfterTake | NJU-OS/dir/lab2/src/mempool.c:242-274 | taking a block changes a successor only where the successor was the block |
| FreeSet.NextAfterGive | NJU-OS/dir/lab2/src/mempool.c:342-366 | giving a block back changes a successor only below and inside it |
| PageAlloc.Page.PagenodeDelivery | NJU-OS/dir/lab2/src/mempool.c:34-54 | the lowest size-aligned slot whose header and data fit a gap; NULL, with nothing changed, if and only if the page has none; the object list stays sorted and disjoint with its headers |
| PageAlloc.Page.PagenodeReceive | NJU-OS/dir/lab2/src/mempool.c:56-75 | unlinks exactly the object that starts at the pointer, or reports that none does |
| PageAlloc.GapTest | NJU-OS/dir/lab2/src/mempool.c:43-44 | the quotient comparison of the scan holds if and only if the gap has room, and rounding up gives its lowest slot |
| PageAlloc.LowestSlot | NJU-OS/dir/lab2/src/mempool.c:42-51 | the first gap with room has the lowest slot of the page |
| PageAlloc.InsertLaid | NJU-OS/dir/lab2/src/mempool.c:43-47 | a slot in a gap keeps objects and headers sorted, aligned and disjoint |
| PageAlloc.InsertThreaded | NJU-OS/dir/lab2/src/mempool.c:45-46 | writing one header and one link threads the new object between its neighbours |
| PageAlloc.RemoveThreaded | NJU-OS/dir/lab2/src/mempool.c:66-68 | one link write unthreads an object and disturbs no other header |
| Pmm.FreshPageHasRoom | NJU-OS/dir/lab2/src/mempool.c:124-125 | a fresh page has room for any power of two below the page size, so the check after a new delivery cannot fail |
| PoolLists.PushBlock | NJU-OS/dir/lab2/src/mempool.c:99-101 | putting a delivered block in front of a pool's list keeps all pools well formed and every page in one place |
| PoolLists.PickPools | NJU-OS/dir/lab2/src/mempool.c:155-175 | unlinking any block of a pool keeps the other blocks and lists well formed |
| PoolLists.ReceivedPools | NJU-OS/dir/lab2/src/mempool.c:176 | a relinked block belongs to the server and to no pool |
| PoolLists.PoolsDetached | NJU-OS/dir/lab2/src/mempool.c:84-214 | no page held by a pool, or dropped, points into the server's list |
| Pmm.Allocator.constructor | NJU-OS/dir/lab2/src/pmm.c:75-116 | boot state: valid, every page free, nothing live |
| Pmm.Allocator.CpumempoolDelivery | NJU-OS/dir/lab2/src/mempool.c:84-135 | NULL, with nothing changed, if and only if there is no room; otherwise exactly one more live object of the given size: a small one in the lowest slot of the first page with room in this CPU's list, and then no block moves, or, if no page has room, in the lowest slot of the lowest free page; a large one at the lowest aligned free block; a page taken goes to the front of the list |
| Pmm.Allocator.DeliverPages | NJU-OS/dir/lab2/src/mempool.c:90-109 | whole pages: NULL if and only if no aligned free block exists; otherwise the lowest one, at the front of this CPU's list |
| Pmm.Allocator.DeliverFromPool | NJU-OS/dir/lab2/src/mempool.c:111-118 | small objects: NULL if and only if no page of the CPU's pool has a slot; otherwise the lowest slot of the first page with room in list order, and no block moves |
| Pmm.Allocator.DeliverFreshPage | NJU-OS/dir/lab2/src/mempool.c:119-130 | the lowest slot of the lowest free page, which is now at the front of this CPU's list; NULL if and only if no page at all is free |
| Pmm.Allocator.CpumempoolReceive | NJU-OS/dir/lab2/src/mempool.c:137-214 | 0 exactly when the pointer lies in no page of the pool, 1 when it was live there and is now gone, 2 when it lies in a page but starts no live object, and then nothing changes |
| Pmm.Allocator.ReleaseBlock | NJU-OS/dir/lab2/src/mempool.c:153-178 | a released block leaves its list, is disowned and goes to the server or is lost; no other object dies |
| Pmm.Allocator.PickOut | NJU-OS/dir/lab2/src/mempool.c:153-175 | unlinking and disowning writes only the block's nodes and the link to it |
| Pmm.Allocator.FreeInPage | NJU-OS/dir/lab2/src/mempool.c:186-204 | removes exactly the object; the page goes back exactly when it was the last one |
| Pmm.Allocator.RealSize | NJU-OS/dir/lab2/src/pmm.c:10-13 | the least power of two that is at least size, which is below 2 * size |
| Pmm.Allocator.Kalloc | NJU-OS/dir/lab2/src/pmm.c:6-23 | NULL without effect for size 0 or above 16 MiB; otherwise NULL without effect exactly when there is no room, else one new live object of the rounded size, aligned to it, at the place the search order determines: first page with room, then lowest free page, or lowest aligned block; no page is dropped |
| Pmm.Allocator.Kfree | NJU-OS/dir/lab2/src/pmm.c:35-53 | freeing a live pointer removes exactly that object and accounts for its page: the block leaves its list, no other block moves, and it goes to the server or is lost; freeing any other pointer changes nothing anywhere |
| Pmm.Allocator.Run | NJU-OS/dir/lab2/src/pmm.c:6-53 | any sequence of requests on any CPUs: the live objects are those on a client's books, pairwise disjoint, aligned to their power-of-two sizes, each between size and 2 * size; every request took the state before it to the state after it as specified; a page is dropped at the end exactly when it was at first or one of the requests lost it |
| Pmm.Allocator.Serve | NJU-OS/dir/lab2/src/pmm.c:6-53 | one request: kalloc answers NULL exactly when there is no room, kfree kills exactly the object at the pointer |
| AllocState.LiveSpan | NJU-OS/dir/lab2/src/pmm.c:6-16 | a live object lies inside its block, has a power-of-two size and is aligned to it |
| AllocState.LiveDisjoint | NJU-OS/dir/lab2/src/pmm.c:6-16 | live objects never overlap |
| AllocState.HeaderDisjoint | NJU-OS/dir/lab2/src/mempool.c:34-54 | no live object overlaps the header record of a live small object |
| AllocState.InsertGood | NJU-OS/dir/lab2/src/mempool.c:113-116 | a new object in a page is one more live object and keeps the whole state valid |
| AllocState.RemoveGood | NJU-OS/dir/lab2/src/mempool.c:187-190 | removing an object keeps the state valid but for the emptied page |
| AllocState.ReceiveGood | NJU-OS/dir/lab2/src/mempool.c:176-202 | returning a block keeps the state valid and every live object, whether it is relinked or lost |
| Accounting.OnePlace | NJU-OS/dir/lab2/src/mempool.c:84-392 | each page is met once by walking the server's list, or is in exactly one block of one pool, or is dropped and in neither |
| Accounting.LostIff | NJU-OS/dir/lab2/src/mempool.c:301-392 | a returned block is lost if and only if its own mark was cleared, some page is free, and none above it is |
| LossExample.LoseOne | NJU-OS/dir/lab2/src/pmm.c:6-53 | the loss at the entry points: on a heap of two pages two one-page requests succeed, both are freed, lower page first, and the upper page is dropped |
| Accounting.FreeIsRest | NJU-OS/dir/lab2/src/mempool.c:84-392 | conservation: a page is free if and only if it is not dropped and in no live object's block |
| Accounting.BlockIsLive | NJU-OS/dir/lab2/src/mempool.c:137-214 | every block of a pool holds a live object, so no small-object page is ever empty |
| AllocTrace.ServedDropped | NJU-OS/dir/lab2/src/mempool.c:168-202 | one request drops exactly the pages it loses: those of a live object's emptied block, freed while some page is free and none above the block is |
| AllocTrace.DroppedOverRun | NJU-OS/dir/lab2/src/mempool.c:137-214 | over any run, a page is dropped after n requests exactly when it was at first or one of the n requests lost it |
| PmmInit.CountPages | NJU-OS/dir/lab2/src/pmm.c:86-97 | as many pages as fit below the heap's last page boundary together with their nodes, and no more |
| PmmInit.Init | NJU-OS/dir/lab2/src/pmm.c:67-123 | records and pages lie in the heap in order without overlap; it halts if and only if one page and its node do not fit between the server record and the last page boundary |
| PmmInit.LiveAboveRecords | NJU-OS/dir/lab2/src/pmm.c:71-116 | live objects stay clear of the node array and inside the heap |
| PmmInit.BootAndRun | NJU-OS/dir/lab2/src/pmm.c:6-123 | from boot, which halts exactly when not one page fits, through any requests: live objects are disjoint, aligned, clear of the records and inside the heap, and a page is in no list exactly when one of the requests lost it |
| PageTree.IndexOfIsIdx | NJU-OS/am/src/x86/qemu/vme.c:49-51 | mask and shift extract a level's nine address bits |
| PageTree.BaseOfIs | NJU-OS/am/src/x86/qemu/vme.c:53-55 | masking an entry gives the frame it names |
| PageTree.EntryIs | NJU-OS/am/src/x86/qemu/vme.c:68 | or-ing flags into a frame address gives a present entry with the write and user bits asked for, and the frame is read back unchanged |
| PageTree.LeafEntryIs | NJU-OS/am/src/x86/qemu/vme.c:152 | the entry map writes is present, user, names the frame, and is writable exactly when asked |
| PageTree.WalkIsLookup | NJU-OS/am/src/x86/qemu/vme.c:57-75 | the processor's walk through raw memory computes the tree's partial map |
| PageTree.GrantedByLeaf | NJU-OS/am/src/x86/qemu/vme.c:57-75 | every link on the way to a page is writable and user, so what the processor grants there, the conjunction over all entries passed (section 4.6 of the Intel SDM, Volume 3A), is what the leaf says |
| Vme.Memories.Rights | NJU-OS/am/src/x86/qemu/vme.c:134-152 | in any owned space a user program can read an address if and only if it is translated, and write it if and only if the leaf is writable |
| PageTree.GrowTree | NJU-OS/am/src/x86/qemu/vme.c:66-68 | linking a zeroed table keeps the tree well formed and changes no translation |
| PageTree.StoreLeaf | NJU-OS/am/src/x86/qemu/vme.c:149-153 | writing a leaf changes the translation of its own page and of no other |
| PageTree.TeardownEntry | NJU-OS/am/src/x86/qemu/vme.c:80 | the present and user tests select exactly the links to child tables: neither the kernel's table nor, above the last level, anything else |
| PageTree.SubAll | NJU-OS/am/src/x86/qemu/vme.c:79-83 | the tables below a table are those below its present user entries |
| Vme.Memories.Pgallocz | NJU-OS/am/src/x86/qemu/vme.c:40-47 | a fresh zeroed frame that is no table yet, or none left |
| Vme.Memories.Ptwalk | NJU-OS/am/src/x86/qemu/vme.c:57-75 | reaches the address's last-level entry, changes no translation, adds tables on the path to the address only, and allocates nothing when they exist |
| Vme.Memories.Descend | NJU-OS/am/src/x86/qemu/vme.c:60-73 | one level of the walk, over a fresh table when there is none |
| Vme.Memories.TranslateIsLookup | NJU-OS/am/src/x86/qemu/vme.c:57-75 | the translation from the address space's own pointer is the abstract map |
| Vme.Memories.Protect | NJU-OS/am/src/x86/qemu/vme.c:117-135 | a new space shares the kernel's entry and maps no user page |
| Vme.Memories.Map | NJU-OS/am/src/x86/qemu/vme.c:141-156 | adds exactly the page's translation, which the processor then lets a user program read, and write if and only if MMAP_WRITE was asked for, or removes it; every other page keeps its translation and its rights; each failure is characterised and changes no translation; only fresh frames become tables, on the path to the address only |
| Vme.Memories.Teardown | NJU-OS/am/src/x86/qemu/vme.c:77-87 | frees each table at and below the given one exactly once and no other frame |
| Vme.Memories.Unprotect | NJU-OS/am/src/x86/qemu/vme.c:137-139 | frees exactly the tables of the space |
| Vme.Memories.Lifecycle | NJU-OS/am/src/x86/qemu/vme.c:117-156 | protect, any sequence of map calls, unprotect: every frame is back and all other memory is as it was, kernel tables and data pages included |
| WordDiv.EstimateBound | NJU-OS/am/src/riscv/npc/libgcc/longlong.h:1688-1690 | the digit estimate is at most two too large and its product with the low half fits a word |
| WordDiv.AddWrap | NJU-OS/am/src/riscv/npc/libgcc/longlong.h:1694-1695 | the r >= d test holds exactly when the addition did not wrap |
| WordDiv.Correct | NJU-OS/am/src/riscv/npc/libgcc/longlong.h:1692-1699 | none, one or two corrections reach the true remainder, below d |
| WordDiv.HalfDigit | NJU-OS/am/src/riscv/npc/libgcc/longlong.h:1688-1699 | each half digit is the true digit with its true remainder |
| WordDiv.UdivQrnndC | NJU-OS/am/src/riscv/npc/libgcc/longlong.h:1681-1716 | q * d + r is the two-word numerator with r < d, for every even word width |
| WordDiv.UmulPpmm | NJU-OS/am/src/riscv/npc/libgcc/longlong.h:1080-1102 | the full product of two words, no carry lost (RISC-V variant: half-word products by __muldi3) |
| WordDiv.FullProduct | NJU-OS/am/src/riscv/npc/libgcc/longlong.h:1648-1670 | the four half products with their carries add up to the product (generic variant) |
| WordDiv.Muldi3 | NJU-OS/am/src/riscv/npc/libgcc/muldi3.S:36-48 | shift and add gives the product modulo the word base |
| Multi3.MultiplyLow | NJU-OS/am/src/riscv/npc/libgcc/multi3.c:58-77 | the loop keeps accumulator + shifted multiplicand * remaining multiplier, and ends with the full product of the low words |
| Multi3.Multi3 | NJU-OS/am/src/riscv/npc/libgcc/multi3.c:40-86 | the product modulo the double word, for every word width |
| Multi3.AddCarry | NJU-OS/am/src/riscv/npc/libgcc/multi3.c:60-67 | adding double words through halves with the carry taken from new_w_low < w_low |
| Multi3.ShiftDouble | NJU-OS/am/src/riscv/npc/libgcc/multi3.c:61-72 | shifting a double word left through its halves |
| SignedWords.TruncLaw | NJU-OS/klib/src/int64.c:378-390 | quotient times divisor plus remainder is the dividend, the remainder is smaller than the divisor and has the dividend's sign (section 6.5.5 of ISO/IEC 9899:2011) |
| SignedWords.QuotientWord | NJU-OS/am/src/riscv/npc/libgcc/div.S:108-123 | negating the quotient of the magnitudes when the signs differ gives the truncated quotient; it wraps only for the minimum divided by -1 |
| SignedWords.RemainderWord | NJU-OS/am/src/riscv/npc/libgcc/div.S:125-140 | the remainder of the magnitudes with the dividend's sign is the truncated remainder |
| RestoringDiv.Normalise | NJU-OS/am/src/riscv/npc/libgcc/div.S:78-84 | the first loop doubles the divisor without losing a bit until it exceeds half the dividend |
| RestoringDiv.DivideStep | NJU-OS/am/src/riscv/npc/libgcc/div.S:87-94 | each round settles one quotient bit |
| RestoringDiv.Udivdi3 | NJU-OS/am/src/riscv/npc/libgcc/div.S:73-96 | quotient and remainder for every width; all ones and the dividend for a zero divisor |
| RestoringDiv.Divdi3 | NJU-OS/am/src/riscv/npc/libgcc/div.S:68-123 | truncated quotient; -1 for a zero divisor and the wrapped minimum on overflow (section 7.2 of the RISC-V Unprivileged ISA manual, version 20191213) |
| RestoringDiv.Moddi3 | NJU-OS/am/src/riscv/npc/libgcc/div.S:125-141 | truncated remainder; the dividend for a zero divisor |
| BitCount.Clzsi2 | NJU-OS/klib/src/int64.c:626-655 | the number of leading zero bits |
| BitCount.Ctzsi2 | NJU-OS/klib/src/int64.c:661-695 | the number of trailing zero bits |
| BitCount.Ctzdi2 | NJU-OS/klib/src/int64.c:703-708 | the same for 64 bits, by the branchless choice of half |
| BitCount.Clzdi2 | NJU-OS/klib/src/int64.c:711-717 | leading zeros of 64 bits |
| BitCount.BitLenBounds | NJU-OS/klib/src/int64.c:626-655 | what the leading-zero count means: the powers of two around the value |
| BitCount.CtzFactor | NJU-OS/klib/src/int64.c:661-695 | what the trailing-zero count means: an odd number times that power of two |
| Int64Div.ShiftBelow | NJU-OS/klib/src/int64.c:543-549 | shift counts 1 to 31: quotient and remainder registers hold the split dividend, every 32-bit shift count in range |
| Int64Div.ShiftAbove | NJU-OS/klib/src/int64.c:550-557 | shift counts 33 to 63, likewise |
| Int64Div.SignCompare | NJU-OS/klib/src/int64.c:612 | the sign-mask comparison tells r >= d, also for divisors of 2^63 and more |
| Int64Div.HighEntry | NJU-OS/klib/src/int64.c:565-588 | after the entry shift the remainder register is below the divisor |
| Int64Div.DivideLoop | NJU-OS/klib/src/int64.c:597-616 | the loop computes quotient and remainder from any valid entry shift |
| Int64Div.DivideLowZero | NJU-OS/klib/src/int64.c:446-506 | the special cases with a zero low divisor half |
| Int64Div.DivideByPower | NJU-OS/klib/src/int64.c:516-525 | the power-of-two case by masking and shifting |
| Int64Div.DivideHighZero | NJU-OS/klib/src/int64.c:510-557 | a one-half divisor |
| Int64Div.DivideGeneral | NJU-OS/klib/src/int64.c:559-588 | a two-half divisor |
| Int64Div.Udivmoddi4 | NJU-OS/klib/src/int64.c:412-620 | a = q * b + r with r < b for all 64-bit a and b != 0, through every special case and the loop |
| Int64Div.Divdi3 | NJU-OS/klib/src/int64.c:355-365 | truncated quotient, the minimum divided by -1 wrapping |
| Int64Div.Moddi3 | NJU-OS/klib/src/int64.c:379-390 | truncated remainder |
| Int64Div.Divmoddi4 | NJU-OS/klib/src/int64.c:369-375 | truncated quotient and remainder with a = q * b + r modulo 2^64 |
| TwoLockQueue.EnqRefines | NJU-OS/dir/lab2/src/kmt.c:287-302 | each step of tasks_enqueue keeps the invariant and acts on an atomic queue at the link write only, where the task stored in memory is the argument of the call |
| TwoLockQueue.DeqRefines | NJU-OS/dir/lab2/src/kmt.c:305-322 | each step of tasks_dequeue likewise, at the head move or at the read of a null link, even while the tail still names the freed dummy; it answers the task it took, or NULL when it found none |
| TwoLockQueue.StepRefines | NJU-OS/dir/lab2/src/kmt.c:287-322 | no step of either thread touches freed memory or fails an assertion; memory holds exactly the chain and the node being added |
| TwoLockQueue.Linearizable | NJU-OS/dir/lab2/src/kmt.c:287-322 | every interleaving replays as an atomic first-in first-out queue, and each call takes effect once between its first and last step, with its own argument or answer |
| TwoLockQueue.InOrder | NJU-OS/dir/lab2/src/kmt.c:251-322 | from tasks_init on: the answers given, a task taken out but not yet answered, the tasks still queued and one asked for but not yet linked in are, in order, the arguments of the calls |
| TwoLockQueue.Progress | NJU-OS/dir/lab2/src/kmt.c:287-322 | the dequeuer can always take a step, and the enqueuer whenever its argument is a task and the allocator returns free memory |
| TwoLockQueue.CallsEnd | NJU-OS/dir/lab2/src/kmt.c:287-322 | each step of a call brings it nearer its end and no step of the other thread delays it |
| TwoLockQueue.InitInv | NJU-OS/dir/lab2/src/kmt.c:251-266 | tasks_init establishes the invariant with an empty queue |
| Scheduler.StepKeeps | NJU-OS/dir/lab2/src/kmt.c:144-176 | no step uses freed memory or reaches a failing assertion; each keeps: one owner (creator, ready slot or CPU) and one record for every task, queued tasks READY, the blocked queue empty |
| Scheduler.CpuKeepsAll | NJU-OS/dir/lab2/src/kmt.c:428-511 | no step of kmt_schedule faults, and each keeps the invariant, with its effect on readyTasks |
| Scheduler.CpuQueues | NJU-OS/dir/lab2/src/kmt.c:454-457 | ownership passes from this CPU, and no other owner, to the last ready slot at the enqueue; every other task keeps its owner |
| Scheduler.CpuPicks | NJU-OS/dir/lab2/src/kmt.c:498-509 | ownership passes from the first ready slot to the CPU at the dequeue and the other slots move up; with nothing ready no owner changes and the CPU takes its spin task |
| Scheduler.CpuFrees | NJU-OS/dir/lab2/src/kmt.c:440-449 | the freed task was allocated and in no list; afterwards it has no owner and no memory, and every other task keeps its state, owner and record |
| Scheduler.CpuLooksUp | NJU-OS/dir/lab2/src/kmt.c:440 | a current task found in quitTasks loses that record only and this CPU, and no other, goes on to free it; otherwise no list changes and it is kept |
| Scheduler.Creates | NJU-OS/dir/lab2/src/kmt.c:150 | a new task is in no list, so the repetition branch is not taken; it becomes alive and owned by its creator, and no other task changes owner |
| Scheduler.Publishes | NJU-OS/dir/lab2/src/kmt.c:164 | ownership passes from the creator to the last ready slot; every other task keeps its owner |
| Scheduler.TearsDown | NJU-OS/dir/lab2/src/kmt.c:171-176 | kmt_teardown moves a record from aliveTasks and then into quitTasks; no task changes owner or state |
| SchedulerRuns.PassLaw | NJU-OS/dir/lab2/src/kmt.c:428-511 | every pass of a CPU through the handler, among any other steps: the task it found is queued or freed, once, and freed if it was in quitTasks at the start; then exactly one task is dispatched to this CPU and runs, or readyTasks was found empty and the spin task runs |
| SchedulerRuns.PassEnds | NJU-OS/dir/lab2/src/kmt.c:428-511 | each step of a CPU in the handler brings it nearer the end and no step of another delays it |
| SchedulerRuns.HandlerAlone | NJU-OS/dir/lab2/src/kmt.c:428-511 | a pass alone is a round robin: the task found goes READY to the end of readyTasks, or is freed if in quitTasks, the first of the waiting tasks runs, or the spin task if there is none, and nothing else changes |
| SchedulerRuns.CreateAlone | NJU-OS/dir/lab2/src/kmt.c:144-169 | kmt_create alone: the task is alive, READY and last in line, and nothing else changes |
| SchedulerRuns.TeardownTaken | NJU-OS/dir/lab2/src/kmt.c:171-176 | kmt_teardown acts if and only if the task is alive, and moves it to quitTasks |
| SchedulerRuns.QuitIsFreed | NJU-OS/dir/lab2/src/kmt.c:440-449 | any pass of the CPU that runs a task of quitTasks frees it, whatever others do meanwhile |
| SchedulerRuns.TornDownIsFreed | NJU-OS/dir/lab2/src/kmt.c:171-176 | a running task that is torn down is freed at its CPU's next pass and is then in no list and owned by nobody |
| Scheduler.RunKeeps | NJU-OS/dir/lab2/src/kmt.c:428-511 | over any interleaving: tasks dispatched and then those still ready are those ready at first and then those queued since |
| Scheduler.ServedInOrder | NJU-OS/dir/lab2/src/kmt.c:498 | a task at position p is dispatched by the (p+1)-th dequeue |
| Scheduler.Safe | NJU-OS/dir/lab2/src/kmt.c:127-176 | from kmt_init on, on any number of CPUs, no run faults or breaks the invariant |
| Scheduler.GoneForGood | NJU-OS/dir/lab2/src/kmt.c:440-449 | a freed task is not queued, dispatched or freed again until its memory is allocated anew |
| Scheduler.AliveStays | NJU-OS/dir/lab2/src/kmt.c:171-176 | a task that nobody tears down is never freed |
| RecordTasks.Records.Add | NJU-OS/dir/lab2/src/kmt.c:346-368 | 2 and no change when the task has a record; else 0 and one new record in front |
| RecordTasks.Records.Delete | NJU-OS/dir/lab2/src/kmt.c:371-397 | unlinks exactly the task's record, or NULL and no change |
| RecordTasks.Records.Query | NJU-OS/dir/lab2/src/kmt.c:399-407 | the task if and only if it has a record |
| RecordTasks.WithoutIsRemoval | NJU-OS/dir/lab2/src/kmt.c:371-397 | deleting from a list without repetition removes the task and nothing else |
| RecordTasks.AddThenDelete | NJU-OS/dir/lab2/src/kmt.c:346-397 | deleting what was just added gives the list back |
| SyscallTimes.Profiler.Record | NJU-OS/dir/M3/sperf.c:96-160 | the list stays well linked in both directions and holds the specified entries; no node is lost; the total grows by the call's time |
| SyscallTimes.Profiler.Raise | NJU-OS/dir/M3/sperf.c:125-133 | swapping contents along prior links moves one entry past all smaller ones |
| SyscallTimes.Profiler.Append | NJU-OS/dir/M3/sperf.c:140-145 | a new command's node is linked behind the last one |
| SyscallTimes.Profiler.Clean | NJU-OS/dir/M3/sperf.c:237-249 | frees every node but the head exactly once |
| SyscallTimes.Profiler.constructor | NJU-OS/dir/M3/sperf.c:262-267 | a head of time 1e9 without a command |
| SyscallTimes.RecordedSums | NJU-OS/dir/M3/sperf.c:117-155 | a call adds its time to its command's total and to no other |
| SyscallTimes.RecordedCommands | NJU-OS/dir/M3/sperf.c:117-155 | commands stay distinct; exactly the call's command is added |
| SyscallTimes.RecordedProfile | NJU-OS/dir/M3/sperf.c:117-155 | times stay non-increasing; the head keeps its place if and only if the command's total is at most 1e9, else the two change places |
| SyscallTimes.BubbleUpPlace | NJU-OS/dir/M3/sperf.c:125-133 | an entry moves behind every entry with no less time and before those with less, and all others stay in order |
| SyscallTimes.ProfileOfRun | NJU-OS/dir/M3/sperf.c:96-160 | after any calls within that limit: one entry per command with the sum of its times, most expensive first, summing to the inputs' total |
| SyscallTimes.Profiler.RecordRun | NJU-OS/dir/M3/sperf.c:270-290 | one round of the parent on the list itself: within the limit every call is recorded, the list is the profile of the inputs and totaltime is the sum of its entries |
| SyscallTimes.HeadLostExample | NJU-OS/dir/M3/sperf.c:117-155 | one call of more than 1e9 takes the head's place |
| SyscallTimes.HeadStaysIff | NJU-OS/dir/M3/sperf.c:117-155 | a whole run keeps the head in place if and only if no command's total exceeds 1e9 |

## Left out

Concurrency and failure modes:

- Pmm.Allocator.Run: allocator calls are whole steps; each CPU's pool lock, the server lock and the interrupt masking of `kalloc_safe` and `kfree_safe` are taken to serialise them, and spin locks themselves are not modelled.
- TwoLockQueue.EnqRefines: node allocation succeeds; on failure `tasks_enqueue` returns with the tail lock held (line 293), which is outside the model.
- Scheduler.Creates: the caller passes freshly allocated memory and the stack allocation succeeds; the error return of `kmt_create` (lines 152-155) is not modelled.
- Scheduler.StepKeeps: runs do not use semaphores. `tasks_enqueue` asserts that the queue is the ready or the blocked one (line 289), so a semaphore wait that blocks fails, and a task found in the blocked queue reaches `assert(0)`; the model keeps both branches as faults and proves them unreachable. `ownedSemNum` is therefore always 0.
- Scheduler.CpuKeepsAll: register contexts, kernel stacks, the interrupt vector table and the saved CPU shots are opaque.
- RecordTasks.Records.Add: the list lock makes each call atomic and node allocation succeeds.

Memory layout and arithmetic:

- MemServer.Server.LowerCounts: the backward scans of lines 251, 359 and 383 read a node before they test that it is in range; the model tests first, which decides the same.
- PageAlloc.Page.PagenodeDelivery: headers are records keyed by address rather than bytes in the page, so what freed memory holds is not modelled; the `WRONG` checks of the allocator are proved from its invariant or stated as preconditions.
- Pmm.Allocator.RealSize: sizes stay far below 2^64, so doubling never wraps.
- PmmInit.Init: addresses are unbounded integers, so wrap-around of pointer arithmetic is not modelled; the failed checks and the call of `halt` are one null result.
- Vme.Memories.Map: `panic_on` is an error result that changes no translation; frames are page-aligned; large pages, the TLB and the accessed and dirty bits are not modelled.
- Vme.Memories.Protect: `pgsize` and `area` of the address space are constants here; the kernel's area spans one root entry, and `vme_init` with its i386 branch is not part of this model.
- BitCount.Clzsi2: `__builtin_clz` and `__builtin_ctz` inside `__udivmoddi4` are taken to be the counts proved for `__clzsi2` and `__ctzsi2`.
- Int64Div.Udivmoddi4: division by zero, undefined in C, is excluded; a null `rem` only skips a store and is not a separate case. `__udivdi3` and `__umoddi3` are single calls of it.
- RestoringDiv.Udivdi3: the 32-bit entry points for RV64 and the register save around calls are not modelled.
- SyscallTimes.Profiler.Record: times are exact reals, so `float` rounding is not modelled; the regular expression, number parsing, the copy of the command and the output are not part of this model.

Parts of the repository that would only add easy members, or whose contracts would not hold:

- `NJU-OS/dir/lab1`: an earlier copy of the same allocator, which reads the delivered node before its null check.
- `NJU-OS/klib/src/string.c`: `memmove`, `strcmp` and `strncmp` do not compute what their names say.
- `NJU-OS/am/src/native/vme.c`: remapping a page links a node already in the list; the rest is `mmap` calls.
- `ucontext` and the context switch of the virtual-memory code.
- The other per-CPU macros of `longlong.h`.
- Devices, boot code, interrupt entry, and the stub platforms.
