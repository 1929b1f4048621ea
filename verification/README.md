# Verified model of liballo

liballo is a C library of memory allocators behind one interface: a binary buddy allocator, fixed-size
pools, a growable arena, a page allocator over mmap, a fallback compositor, and a general-purpose
allocator stacked from pools, buddy and pages. This project models those six allocators in Dafny and
proves what they keep over every run. `dafny verify dfyconfig.toml` checks it.

## How the model is built

Every allocator works on one byte-addressed memory (`Memory.Heap`); address 0 is NULL, and words are
little-endian 64-bit. What the C code stores inside the memory it manages is stored there in the model:
the doubly linked nodes of the buddy lists and the links of the pools lie in free blocks, the arena's
block headers lie in the blocks, the page allocator's registry lies in its mapping. So "no allocator call
touches a live allocation" is a statement about bytes.

Each allocator comes in two layers. A value-level module says what an operation does to the abstract
state (`BuddyModel`, `PoolModel`, `GenModel`, `ArenaModel`) and proves the theorems about runs. A class
(`Buddy.Context`, `Pool.Context`, `Page.Context`, `Gen.Context`, `Arena.Context`, `Fallback.Context`) has
the C struct's fields and the C functions as methods, with the same branches and loops; each method's
`ensures` ties the new abstract state to the old one by the value-level function, and says which bytes
did not change. Ghost fields hold the abstract state; `Valid()` ties it to the real fields and to the
memory.

| file | models |
|---|---|
| `Memory`, `Order`, `Sequences` | bytes and words, powers of two, `get_order` |
| `BuddyTree`, `BuddyModel`, `BuddyTheorems` | the tree of blocks, the buddy operations on values, theorems over runs |
| `Bitset`, `FreeLists`, `BuddyRep`, `Buddy` | packed bits, linked lists in memory, the agreement of the views, the running allocator |
| `PoolModel`, `Pool` | slots; the linked list through the free ones |
| `Os`, `Page` | mmap, munmap and mremap with unknown answers; the mapping registry |
| `GenRouting`, `GenModel`, `GenFacts`, `GenExact`, `Gen`, `GenMake`, `GenLife` | routing by size, the three tiers together, why nothing is left behind in them, the running allocator, its construction, its whole life |
| `ArenaModel`, `Arena` | blocks and bump offsets; the linked block list in memory |
| `Child`, `Fallback` | any allocator behind the interface, with unknown answers; the compositor over two of them |
| `BuddyLife`, `PoolLife` | buddy and pool in memory of any child: construction, its failures, destruction |

The operating system (`Os.Kernel`) and the child of another allocator (`Child.Allocator`) choose their
answers, and what they write in memory they have not handed out, arbitrarily within their contracts. The
results hold for every such behaviour. A child holds a region of addresses, of any shape, that may grow,
shrink and interleave with those of others; only live blocks must stay in it, and addresses that somebody
else holds stay out of it (the parameter `taken`). The system counts its refusals and lists the calls it has
answered (`Os.Kernel.calls`), and the children write their calls into one `Journal`, so that a contract can say that a request is refused only if the layer
below has refused, and which calls were made in which order. What a child does when it is handed a block
that is not its own is undefined: nothing is promised about it but the entry in the journal.

Preconditions are those of the interface (include/allo.h:141-147, 190-191): `free` and `realloc` get NULL
or a live pointer with its current size; sizes are values of `size_t`. Where the C code adds or multiplies
sizes without a check and nothing behind it catches the wrap-around, the sum or product is required to fit
(`HEADER + blockSize + n < WORD` in the arena, `SlotSize(blockSize) * totalBlocks < WORD` in the pool). The
page allocator's rounding does wrap around in the model, and the request is refused
(`Page.RoundUpFits`).

## One promise that does not hold as stated

The fallback's `free` and `realloc` find the owner of a pointer by asking the primary, and take Unknown for
Yes (src/allo_fallback.c:29-31, 58-61). A primary that answers Unknown, such as the C library allocator, is
handed the fallback's blocks: `Fallback.UnknownPrimaryCaptures` is such a case.
`Fallback.ReachesOwnerIff` gives the exact condition: a live pointer reaches its owner if and only if the
primary owns it or answers exactly. `Fallback.Context.Free` and `Realloc` take any live pointer; they say
which allocator is called in every case, and what becomes of ownership and contents when the condition
(`Routed`) holds.

## Model

| member | source | states |
|---|---|---|
| Order.GetOrderIsCeilLog2 | src/allo_buddy.c:66-74 | a number is the order of a size exactly when it is the ceiling of log2 of that size |
| Order.GetOrderPortable | src/allo_buddy.c:75-110 | the portable shift cascade computes the count-leading-zeros form, for every 64-bit size |
| Memory.LoadStored | src/allo_buddy.c:8-11 | a word stored as bytes loads back as the same word |
| Memory.Put64Facts | src/allo_buddy.c:25-45 | a pointer store is read back, changes its eight bytes only, and no other word |
| Memory.Heap.Copy | include/allo_mem.h:11-15 | memcpy under the non-overlap it asserts: destination equals the old source, all else is unchanged |
| Memory.AlignUp8 | include/allo_mem.h:26-28 | the least multiple of 8 that is not below the argument |
| Bitset.MaskIsShift | src/allo_buddy.c:54-60 | the masks are 1 shifted left by the bit number |
| Bitset.ByteBitIsShift | src/allo_buddy.c:62-64 | testing by mask equals shifting right and taking the low bit |
| Bitset.ByteBitUpdates | src/allo_buddy.c:54-60 | or-ing or and-not-ing a mask changes that one bit of a byte |
| Bitset.SetBit | src/allo_buddy.c:54-56 | bit n reads true afterwards and every other bit of the bitset as before |
| Bitset.ClearBit | src/allo_buddy.c:58-60 | bit n reads false afterwards and every other bit of the bitset as before |
| BuddyTree.DisjointBlocks | src/allo_buddy.c:138-149 | blocks that do not overlap in the tree share no byte of the buffer |
| BuddyTree.CoversBytes | src/allo_buddy.c:138-149 | a block that covers another in the tree contains its bytes |
| BuddyTree.SplitTiles | src/allo_buddy.c:142-151 | splitting a block into its halves keeps an exact tiling |
| BuddyTree.MergeTiles | src/allo_buddy.c:200-223 | joining a block with its sibling keeps an exact tiling |
| BuddyModel.SplitDownConsistent | src/allo_buddy.c:142-151 | the split loop keeps tiling, coalescing and duplicate-free lists while it holds a block in hand |
| BuddyModel.MergeConsistent | src/allo_buddy.c:187-224 | the merge loop turns a held block plus a coalesced state into a coalesced state without it |
| BuddyModel.AllocKeepsInv | src/allo_buddy.c:112-159 | alloc keeps the invariant; its block is new, on the level of the size, and was not live |
| BuddyModel.FreeKeepsInv | src/allo_buddy.c:169-225 | free of a live block keeps the invariant, in particular that no two siblings are both free |
| BuddyTheorems.RunsKeepInv | src/allo_buddy.c:112-245 | after any sequence of allocs, frees and reallocs: free and live blocks tile the tree, coalesced, each live block on the level of its size |
| BuddyTheorems.ExactTiling | src/allo_buddy.c:112-225 | each byte of the buffer lies in exactly one free or live block |
| BuddyTheorems.BlocksAligned | src/allo_buddy.c:112-225 | each block lies in the buffer, is at least 32 bytes, and starts at a multiple of its own size |
| BuddyTheorems.BytesConserved | src/allo_buddy.c:112-225 | free bytes plus live bytes are always the whole buffer |
| BuddyTheorems.VacantIsFree | src/allo_buddy.c:187-224 | a region with no live block in it lies inside a single free block |
| BuddyTheorems.FreeIsMaximalVacant | src/allo_buddy.c:187-224 | the free blocks are exactly the largest vacant blocks |
| BuddyTheorems.HistoryIndependence | src/allo_buddy.c:187-224 | two states with the same live blocks have the same free blocks, whatever happened before |
| BuddyTheorems.AllFreedIsInitial | tests/test_buddy.c:87-95 | when everything has been freed, in any order, the state is the initial one: one root block |
| BuddyTheorems.AllocIsComplete | src/allo_buddy.c:112-132 | a request fails exactly when it is zero, has no level, or every aligned region of its rounded size is touched by a live block |
| BuddyTheorems.LevelExists | src/allo_buddy.c:117-124 | a request has a level exactly when it is not larger than the buffer |
| BuddyTheorems.BlockFits | src/allo_buddy.c:117-122 | a block fits its request and is 32 bytes or less than twice the request |
| BuddyTheorems.AllocTakesHead | src/allo_buddy.c:126-158 | which block it is: the nearest list that is not empty gives up its head, the block is the first of its size inside that head, and each level below gets one second half; every list afterwards |
| BuddyTheorems.SplitDownExactly | src/allo_buddy.c:142-151 | splitting keeps the first half each time and puts the second in front of the list of its level |
| BuddyTheorems.AllocFreeRoundTrip | src/allo_buddy.c:126-223 | freeing what was just allocated gives back the identical state, every list in its order |
| FreeLists.PushChain | src/allo_buddy.c:25-33 | after list_push's stores the memory holds the chain with the node in front, next and prev mutually inverse |
| FreeLists.RemoveChain | src/allo_buddy.c:35-45 | after list_remove's stores the memory holds the chain without the node, wherever it stood |
| FreeLists.ListPush | src/allo_buddy.c:25-33 | all lists are linked as before but for one new front node; only headers of listed nodes are written |
| FreeLists.ListRemove | src/allo_buddy.c:35-45 | all lists are linked as before but for the removed node; only its neighbours' headers are written |
| BuddyRep.NodeIndexInBounds | src/allo_buddy.c:50-52 | every block's bit lies inside a bitset of two bits per 32-byte block (311-315) |
| BuddyRep.NodeIndexInjective | src/allo_buddy.c:50-52 | two blocks never share a bit |
| BuddyRep.BitsUpdate | src/allo_buddy.c:138-149 | writing one block's bit keeps bits and lists in agreement when that block enters or leaves its list |
| BuddyRep.BitsDetermined | src/allo_buddy.c:50-64 | the lists determine every bit in use |
| BuddyRep.ChainsSeparate | src/allo_buddy.c:8-11 | the nodes of all lists lie in different places, so the lists are acyclic and do not meet |
| BuddyRep.WrittenFramed | src/allo_buddy.c:134-151 | writes to free headers change no byte of a held block |
| BuddyRep.LinkedInBuffer | src/allo_buddy.c:25-45 | changes outside the buffer leave every list alone |
| Buddy.RoundUpSize | src/allo_buddy.c:284-287 | the doubling loop ends with the least power of two that holds the size, within one word |
| Buddy.Context.constructor | src/allo_buddy.c:287-315 | the three views of a new allocator agree: one list node, one bit, one root block |
| Buddy.Context.PutBlock | src/allo_buddy.c:148-149 | list_push and set_bit together keep the views in agreement and all held blocks' bytes |
| Buddy.Context.TakeBlock | src/allo_buddy.c:134-140 | list_remove and clear_bit together keep the views in agreement and all held blocks' bytes |
| Buddy.Context.FindList | src/allo_buddy.c:126-129 | the search finds the nearest non-empty list at or above the target level, or none |
| Buddy.Context.SplitTo | src/allo_buddy.c:142-151 | each round of the split loop keeps lists, memory and bits in agreement; the result is the model's split; no held byte changes |
| Buddy.Context.TakeAndSplit | src/allo_buddy.c:131-158 | taking a list head and splitting it answers the model's block and records its level |
| Buddy.Context.Alloc | src/allo_buddy.c:112-159 | the state and the address are those of the model; no byte of a live block changes; a refusal changes no byte |
| Buddy.Context.ContainsIsBlocks | src/allo_buddy.c:161-167 | contains answers Yes exactly for the bytes of some free or live block |
| Buddy.Context.LiveIsContained | src/allo_buddy.c:161-172 | every byte of a live allocation is contained, as free and realloc assert |
| Buddy.PayloadKeepsLinks | src/allo_buddy.c:8-11 | whatever the owner writes in a live block, all lists stay linked |
| Buddy.PayloadFramed | src/allo_buddy.c:8-11 | what the owner writes in a live block changes no other live block |
| Buddy.Context.PushHeld | src/allo_buddy.c:191-210 | the end of a merge inserts the held block as the model does |
| Buddy.Context.JoinSibling | src/allo_buddy.c:212-223 | a merge round takes the free sibling out and goes on with the parent, the views agreeing |
| Buddy.Context.MergeUp | src/allo_buddy.c:187-224 | each round of the merge loop keeps the views in agreement; the result is the model's merge; no live byte changes |
| Buddy.Context.Free | src/allo_buddy.c:169-225 | the state is the model's free of the block that pointer and size name; no byte of a remaining live block changes |
| Buddy.Context.WritePayload | src/allo_buddy.c:153-158 | a live block is its owner's to write: the allocator stays valid and other live blocks unchanged |
| Buddy.Context.MoveAndFree | src/allo_buddy.c:241-244 | copy then free: the new block has the first bytes, no third block changes |
| Buddy.Context.Realloc | src/allo_buddy.c:227-245 | keeps the first min(old, new) bytes; fails exactly when the model's alloc does, and then changes no byte; other live blocks are unchanged |
| Buddy.Context.RoundTrip | src/allo_buddy.c:112-225 | alloc and free of its result restore every list, list head and bit in use |
| BuddyLife.HeadsCountFacts | src/allo_buddy.c:300-304 | from 32 bytes on the list heads asked for are those that destroy computes again; below there is no leaf, and a table is of no size |
| BuddyLife.Calloc | src/allo.c:4-15 | NULL without a request when the product is no size_t, else one request; zeroed memory, and nobody else's byte changes |
| BuddyLife.GetMaps | src/allo_buddy.c:315-332 | with any child: bitset and levels are both obtained, or one request was refused and neither is left |
| BuddyLife.GetMemory | src/allo_buddy.c:292-332 | with any child: all four allocations, or none of them is left |
| BuddyLife.Make | src/allo_buddy.c:269-341 | for every size: Inval exactly for 0, NoMem exactly for sizes up to 16 or a refused request, and then the child has what it had; else four more allocations and one free root block of the rounded size |
| BuddyLife.Context.Destroy | src/allo_buddy.c:247-267 | the four blocks go back once each with the sizes they were obtained with; the child is left with exactly the others' allocations, their bytes unchanged |
| BuddyLife.Act | src/allo_buddy.c:112-245 | no call, and no store of a client in its own blocks, changes a byte of the child's other allocations |
| BuddyLife.Life | src/allo_buddy.c:247-341 | construction, any calls, destruction: the child has the allocations it had, and nobody else's byte has changed |
| PoolModel.RunKeepsInv | src/allo_pool.c:30-76 | over any run free list and live slots partition the slots, without repetition |
| PoolModel.SlotsConserved | src/allo_pool.c:30-76 | free plus live slots are always all the slots |
| PoolModel.AllocIsComplete | src/allo_pool.c:30-41 | a request fails exactly when it is zero, too large for a slot, or every slot is live |
| PoolModel.AllocFreeRoundTrip | src/allo_pool.c:43-76 | freeing the slot just allocated gives back the identical free list |
| Pool.Context.constructor | src/allo_pool.c:110-127 | over a given buffer: slots are of the aligned size, at least 8; all of them free and linked; nothing outside the buffer is written |
| Pool.Context.Contains | src/allo_pool.c:22-28 | Yes exactly when some slot holds the address |
| Pool.Context.LiveIsContained | src/allo_pool.c:50-66 | every byte of a live slot is contained, as free and realloc assert |
| Pool.SlotBytes | src/allo_pool.c:22-28 | the buffer is exactly its slots |
| Pool.Context.LinkSlots | src/allo_pool.c:116-127 | the constructor's loop threads every slot once, in order, ending in NULL |
| Pool.Context.Alloc | src/allo_pool.c:30-48 | answers the slot the model answers and unlinks it |
| Pool.Context.Realloc | src/allo_pool.c:50-61 | in place if the slot is large enough, else refused with the slot still live |
| Pool.Context.Free | src/allo_pool.c:63-76 | the slot is the new list front; only its first eight bytes are written |
| Pool.Context.LinksFrame | src/allo_pool.c:6-8 | changes outside the buffer leave the free list alone |
| Pool.Context.LinksPayload | src/allo_pool.c:6-8 | what the owner writes in a live slot leaves the free list alone |
| PoolLife.Make | src/allo_pool.c:85-130 | a pool with a buffer of its own from any child: Inval exactly for a zero size or count, NoMem exactly when the one request is refused, and then nothing is left; else all slots are free in a buffer that is live in the child |
| PoolLife.Context.Destroy | src/allo_pool.c:78-83 | the buffer goes back with the size it was obtained with, and the child is left with exactly the others' allocations, their bytes unchanged |
| PoolLife.Act | src/allo_pool.c:30-76 | no call, and no store of a client in its own slots, changes a byte of the child's other allocations |
| PoolLife.Life | src/allo_pool.c:30-130 | construction, any calls, destruction: the child has the allocations it had, and nobody else's byte has changed |
| Page.RoundUpFits | src/allo_page.c:66-67 | rounding in 64 bits: the least multiple of the page size, or 0 exactly for size 0 and for sizes within a page of 2^64 |
| Page.ShowsAdd | src/allo_page.c:39-43 | registry_add keeps the registry equal to the live map with rounded sizes |
| Page.ShowsRemove | src/allo_page.c:45-54 | swap with the last entry removes exactly one allocation from what the registry shows |
| Page.ShowsMove | src/allo_page.c:109-116 | rewriting an entry in place moves exactly one allocation |
| Page.EntryStored | src/allo_page.c:39-43 | the two stores of an entry, over another one or after the last, leave every other entry in memory as it was |
| Page.StoredMoved | src/allo_page.c:25-35 | a registry whose bytes were copied to another address is the same registry |
| Page.Context.InsideChange | src/allo_page.c:56-77 | what the owner writes in a live allocation touches neither the registry nor anybody else's mapping |
| Page.Context.LoadEntry | src/allo_page.c:45-47 | the two words in memory are the entry |
| Page.Context.StoreEntry | src/allo_page.c:39-43 | the memory shows the registry with that entry; no byte of any other mapping changes |
| Page.Context.Make | src/allo_page.c:158-179 | fails exactly when the system refuses the registry's mapping, and then leaves no mapping |
| Page.Context.EnsureCapacity | src/allo_page.c:25-37 | with room for one more nothing is asked and nothing changes; else one mremap by a page, a page's worth of entries more, the entries in memory surviving the move; fails exactly when the system refuses |
| Page.Context.Alloc | src/allo_page.c:56-77 | a new live entry for exactly one new mapping, or NULL exactly for size 0 or a refusal of the system, sizes within a page of 2^64 among them; the system's calls are one mmap of the rounded size, after one mremap exactly when the registry was full; others' mappings and bytes unchanged |
| Page.Context.MapAndAdd | src/allo_page.c:66-76 | mapping and entry are added together or not at all |
| Page.Context.FindEntry | src/allo_page.c:45-47 | the search loop finds the entry of a live address |
| Page.Context.RegistryRemove | src/allo_page.c:45-54 | the memory shows the live map without that address |
| Page.Context.RegistryMove | src/allo_page.c:109-116 | the memory shows the live map with the address moved and the size rounded anew |
| Page.Context.Free | src/allo_page.c:123-135 | exactly this mapping is returned, by one munmap of the rounded size; its entry is gone, and others' mappings and bytes are unchanged |
| Page.Context.Remap | src/allo_page.c:85-121 | equal rounded sizes: p again, no call, no byte changed; else one mremap, which keeps the first min(old, new) bytes or is refused with nothing changed |
| Page.Context.Realloc | src/allo_page.c:79-121 | alloc for NULL, else as Remap, for every size: p again without a call when the rounded sizes are equal, else one mremap; mappings of others keep every byte |
| Page.Context.Contains | src/allo_page.c:147-156 | true exactly for addresses inside the mapping of a live allocation |
| Page.Context.Destroy | src/allo_page.c:137-145 | the mappings left are exactly those of others: each own one, registry included, is returned |
| GenRouting.PoolIndexIsBestFit | src/allo_gen.c:25-52 | a small size is routed to the smallest pool whose block holds it |
| GenRouting.PoolBytes | src/allo_gen.c:10-13 | every pool fills exactly 64 KiB with 8-aligned blocks |
| GenModel.SlotInBlock | src/allo_gen.c:184-188 | each slot of pool i lies inside the live buddy block that is its buffer |
| GenModel.HomeFacts | src/allo_gen.c:54-68 | a small or medium allocation lies in a live buddy block: its pool's buffer, or one that is no pool's |
| GenModel.LiveDisjoint | src/allo_gen.c:54-121 | two live allocations share no byte, from whatever tiers |
| GenModel.HeldOnce | src/allo_gen.c:107-121 | an address is held under one size only, so the tier that free computes is the owner |
| GenModel.AllocKeepsInv | src/allo_gen.c:54-68 | alloc keeps all tiers' invariants and the routing of every live allocation |
| GenModel.FreeKeepsInv | src/allo_gen.c:107-121 | free keeps them |
| GenModel.ReallocKeepsInv | src/allo_gen.c:70-105 | realloc keeps them, within a tier and across tiers: the allocation has its new size, at p or at an address of its own |
| GenModel.RunsKeepDisjoint | src/allo_gen.c:54-121 | over any run and whatever the system answers: live allocations are pairwise disjoint, each held by the tier and pool its size routes to |
| GenExact.TiersAreUsers | src/allo_gen.c:54-121 | what the tiers hold is exact: in pool i the slots of the users routed to it, in the buddy the pools' buffers and the blocks of medium users, in the page tier the allocator's own memory and the large users |
| GenExact.AllocKeepsExact | src/allo_gen.c:54-68 | what a tier holds after alloc beside what it held is the new user's |
| GenExact.FreeKeepsExact | src/allo_gen.c:107-121 | free gives back just what the user held, whatever its tier |
| GenExact.ReallocKeepsExact | src/allo_gen.c:70-105 | a move leaves nothing behind: the old slot, block or mapping is given back |
| GenExact.RunsKeepExact | src/allo_gen.c:54-121 | over any run, whatever the system answers, the tiers hold exactly what the users hold and the allocator's own memory |
| GenExact.SlotsAreUsers | src/allo_gen.c:60-62 | a pool has as many live slots as users are routed to it |
| GenExact.SmallAllocIsComplete | src/allo_gen.c:60-62 | a small request fails exactly when as many users are routed to its pool as the pool has slots |
| GenExact.MediumAllocIsComplete | src/allo_gen.c:63-64 | a medium request fails exactly when every aligned region of its rounded size touches a pool's buffer or the bytes reserved for a medium user |
| GenExact.ReallocIsComplete | src/allo_gen.c:70-105 | a resize to a small or medium size that is not in place fails exactly when there is no room beside the old allocation |
| GenExact.SameUsersSameTiers | src/allo_gen.c:54-121 | history independence of the whole allocator: the users decide what every tier holds and what is free in it |
| GenExact.NoUsersIsInitial | src/allo_gen.c:107-121 | with no users, in whatever order they went, every slot is free, the pools' buffers are all that is live in the buddy, and the allocator's own memory all that is live in the page tier |
| Gen.Context.PoolAlloc | src/allo_gen.c:60-62 | one pool answers, and the links of the other seven are undisturbed |
| Gen.Context.BufferChange | src/allo_gen.c:176-197 | whatever happens inside the buddy buffer touches neither the page registry nor a mapping of others |
| Gen.Context.AllocSmall | src/allo_gen.c:60-62 | the pool for the size answers; the composed state follows the model |
| Gen.Context.AllocMedium | src/allo_gen.c:63-64 | the buddy answers; pool links and all live bytes survive its writes |
| Gen.Context.AllocLarge | src/allo_gen.c:65-67 | the page tier answers, by one mmap of the rounded size after one mremap exactly when its registry was full; NULL exactly when the system refuses; the tiers inside the buffer and the mappings and bytes of others are undisturbed |
| Gen.Context.Alloc | src/allo_gen.c:54-68 | one new user at an address of its own, or NULL: for a small or medium size exactly when the users leave no room, without asking the system, for a large one exactly when the system refuses; tiers stay exact; no byte of a live allocation and no mapping or byte of others changes |
| Gen.Context.Free | src/allo_gen.c:107-121 | the owner is reached: the user is gone and the tiers are exact; one munmap for a large block, else no call; no byte of another live allocation and no mapping or byte of others changes |
| Gen.Context.PageFree | src/allo_gen.c:118-120 | a large block's mapping goes back alone, by one munmap; lists, pools, other allocations and others' mappings are undisturbed |
| Gen.Context.WriteUser | src/allo_gen.c:54-68 | whatever the owner writes in a live allocation, all tiers stay valid and other allocations unchanged |
| Gen.Context.MoveAndFree | src/allo_gen.c:101-104 | copy between tiers, then free: contents preserved, others unchanged |
| Gen.Context.ReallocSlot | src/allo_gen.c:83-88 | within one pool nothing moves and only the recorded size changes |
| Gen.Context.ReallocBlock | src/allo_gen.c:89-91 | within the buddy tier contents are preserved and pools undisturbed |
| Gen.Context.ReallocMapping | src/allo_gen.c:92-94 | equal rounded sizes: p again, no call, no byte changed; else one mremap with contents preserved, NULL exactly when the system refuses; others' mappings and bytes unchanged |
| Gen.Context.MoveAcross | src/allo_gen.c:96-105 | across tiers or pools: a new allocation with the first min(old, new) bytes and the old place given back, or NULL and nothing changed; the system is called for the allocation and the free of large sizes only; others' mappings and bytes unchanged |
| Gen.Context.Realloc | src/allo_gen.c:70-105 | with the guards of allo_realloc (src/allo.c:17-29), for every size: one user has its new size, at p without any call when the size, the pool or the pages stay the same; NULL for a small or medium size exactly when the users leave no room, and the old allocation is live; first min(old, new) bytes kept, tiers exact, every other allocation's bytes and others' mappings unchanged |
| Gen.Context.Contains | src/allo_gen.c:140-155 | true exactly inside a mapping of the page tier, and for every byte of every live allocation |
| Gen.Context.DestroyPools | src/allo_gen.c:130-132 | every pool buffer goes back to the buddy with the size it was obtained with; nothing outside the buffer changes |
| Gen.Context.DestroyBuddy | src/allo_gen.c:133 | the four recomputed sizes are those obtained at construction, so each is returned to the page tier; any child and size: BuddyLife.Context.Destroy |
| Gen.Context.Destroy | src/allo_gen.c:123-138 | the mappings left are exactly those of others, their bytes unchanged, whatever is still live |
| GenMake.MakeMaps | src/allo_buddy.c:315-332 | with the page tier as child: bitset and levels are both obtained or neither is left; others' bytes unchanged |
| GenMake.MakeBuddyMemory | src/allo_buddy.c:292-332 | with the page tier as child: all four allocations, or none is left; fails exactly when the system refuses; others' bytes unchanged |
| GenMake.NextBufferFits | src/allo_gen.c:184-188 | while fewer than eight buffers are out, the buddy cannot refuse the next one |
| GenMake.FirstExact | src/allo_gen.c:184-197 | after construction the tiers hold the pools' buffers and the allocator's own memory and nothing else |
| GenMake.MakePools | src/allo_gen.c:184-197 | the eight pools are built in eight live buddy blocks of their own; none can fail |
| GenMake.Make | src/allo_gen.c:157-209 | construction fails exactly when the system refuses a mapping; else every tier is valid and nothing is live; others' mappings and bytes are as before; after a failure nothing is left, or exactly the state block if the buddy's memory was refused |
| GenLife.Act | src/allo_gen.c:54-121 | no call, and no store of a client in its own allocations, changes a mapping or a byte of others; the client's record of its allocations stays true |
| GenLife.Life | src/allo_gen.c:54-209 | construction, any calls and stores, destruction: the system has exactly the mappings it had before, and no byte of them has changed |
| ArenaModel.AllocKeepsInv | src/allo_arena.c:60-97 | the answer is aligned and clear of every live allocation; NULL exactly for size 0 or when the request does not fit behind the aligned offset and the block it needs is refused; blocks and live allocations stay pairwise disjoint |
| ArenaModel.LastIsLast | src/allo_arena.c:103-110 | the realloc test picks exactly the live allocation in the current block that ends at its offset, and no other one there lies beyond it; the comparison with the block start is implied |
| ArenaModel.ReallocKeepsInv | src/allo_arena.c:99-143 | in place, kept or moved, the allocation stays clear of all others although the offset may go down; what does not grow stays at p; NULL exactly when it must move to a refused block, and then nothing changed |
| ArenaModel.ResizeLastIsAlloc | src/allo_arena.c:112-127 | in the current block, allocating and resizing gives the very state of allocating the other size at once |
| ArenaModel.StepKeepsBlock | src/allo_arena.c:73-89 | no operation drops a block from the list |
| ArenaModel.RunsKeepInv | src/allo_arena.c:60-150 | over any run: live allocations disjoint, 8-aligned, inside their block below its offset; blocks disjoint; current on the list with the configured size; every block still there |
| ArenaModel.ReturnedStaysInside | src/allo_arena.c:24-47 | a pointer once handed out lies inside some block forever |
| Arena.AllocServes | src/allo_arena.c:60-97 | a large request is one request to the child and the current block stays; one that fits behind the aligned offset is no request; any other is one request for the configured size, and that block becomes current |
| Arena.ReallocServes | src/allo_arena.c:99-143 | what ends at the current offset is resized in place while it fits, anything else that does not grow stays, the rest is served as a new request |
| Arena.NewBlock | src/allo_arena.c:49-58 | one request to the child for header plus size; the header words are link NULL, size, offset 0 |
| Arena.OffsetStored | src/allo_arena.c:94-120 | storing an offset leaves every other header word of the list as it was |
| Arena.BlockLinked | src/allo_arena.c:74-88 | the two link stores insert the block after the current one in a list that stays whole |
| Arena.PayloadKeeps | src/allo_arena.c:93-96 | what the owner writes in a live allocation touches no header and no other allocation |
| Arena.KeepIsBoth | src/allo_arena.c:99-143 | what the calls keep are both the child's other allocations and the arena's live ones: neither hides an entry of the other |
| Arena.Context.Extend | src/allo_arena.c:70-88 | a block is obtained and linked in, or all is as it was; nothing of others is written |
| Arena.Context.Bump | src/allo_arena.c:93-96 | a request that fits behind the aligned offset moves the offset and asks the child nothing |
| Arena.Context.AllocInNew | src/allo_arena.c:68-91 | a dedicated block never becomes current, a next block does |
| Arena.Context.Alloc | src/allo_arena.c:60-97 | address, current block and the child's calls as in Served: when a block is asked for, how large, and which block is current; no live byte and nothing else of the child's changes |
| Arena.Context.Resize | src/allo_arena.c:99-143 | follows the model; keeps the first min(old, new) bytes; every other allocation's bytes are unchanged |
| Arena.Context.Move | src/allo_arena.c:135-142 | the copy meets memcpy's non-overlap; the old place keeps its bytes |
| Arena.Context.Realloc | src/allo.c:17-29 | the guards around arena_realloc_fn: size 0 frees, NULL allocates, equal size stays; else address, current block and the child's calls as in ResizeServed; the first min(old, new) bytes kept |
| Arena.Context.Free | src/allo_arena.c:145-150 | the allocation is no longer live; no space is reclaimed and no byte written |
| Arena.Context.Contains | src/allo_arena.c:24-47 | current block first and skipped in the walk equals plain membership in some block |
| ArenaModel.LiveInSome | src/allo_arena.c:24-47 | every live pointer is inside some block, so contains answers Yes for it |
| Arena.Context.WriteUser | src/allo_arena.c:93-96 | the owner may write its allocation: the arena stays valid and everything else unchanged |
| Arena.Context.Destroy | src/allo_arena.c:152-161 | every block goes back to the child once, with the size it was obtained with; the child is left with exactly the others' allocations |
| Arena.Make | src/allo_arena.c:163-184 | Inval exactly for block size 0, NoMem exactly when the child refuses, else a valid arena of one block |
| Fallback.ReachesOwnerIff | src/allo_fallback.c:29-64 | for regions of any shape that do not meet: a live pointer reaches its owner if and only if the primary owns it or answers exactly |
| Fallback.UnknownPrimaryCaptures | src/allo_fallback.c:58-61 | a case in which the primary's Unknown sends the fallback's block to the primary |
| Fallback.Context.ContainsIsSound | src/allo_fallback.c:67-78 | no live pointer is answered No, an owner that answers exactly makes it Yes, and Yes is given only for an address that one of them holds |
| Fallback.Context.Alloc | src/allo_fallback.c:13-20 | the fallback is asked just when the primary has refused; the answer is in exactly one of them and clear of both's blocks |
| Fallback.Context.Free | src/allo_fallback.c:54-65 | for every live pointer, which allocator is called; if it is the owner, that one alone gives the block up, and other blocks keep their bytes |
| Fallback.Context.ReallocInPrimary | src/allo_fallback.c:29-48 | resized by the primary, or moved: the calls made, in their order, and for a block of the primary ownership and contents |
| Fallback.Context.SpillOver | src/allo_fallback.c:40-47 | ownership moves once with the contents, or nothing changes |
| Fallback.Context.Realloc | src/allo_fallback.c:22-52 | with the guards of allo_realloc, for every live pointer: the calls made, in their order; if it reaches its owner, one owner gives the old block up and one holds the new, the first min(old, new) bytes are preserved, and on NULL nothing changed |

## Left out

- `make_gen_allocator`'s clean-up after a failed buddy or pool construction (src/allo_gen.c:178-181, 188-195): it unmaps the page that holds `s->page` and then destroys `s->page`. `GenMake.Make` stops where that clean-up begins and says exactly what is live there (`left`); that pool construction never fails is proved.
- A caller-supplied buffer of the buddy allocator (src/allo_buddy.c:296-298): the model's buffer has the rounded power-of-two size; a smaller one would be overrun.
- Where `free_lists`, `bitset` and `block_orders` lie: they are arrays of the model beside the memory; their allocations are obtained, sized, tracked by address and returned, but their bytes are not those of the heap. The fields of the context structures are fields of the classes.
- Buddy.Context.PutBlock: does list_push before set_bit as alloc does; free does set_bit first. They write different memory.
- `buddy_realloc_fn` reached through `allo_realloc` with equal sizes: the guard is in `Gen.Context.Realloc`; `Buddy.Context.Realloc` is the function itself.
- `munmap` of parts of a mapping, and the zero page contents of a grown mapping.
- Function pointers and the `_state` buffer become direct calls. The general allocator calls the concrete page, buddy and pool allocators; arena, fallback, `BuddyLife` and `PoolLife` call the abstract `Child.Allocator`.
- A child's answer to `allo_contains` is exact on its region or always Unknown; one that is exact for some pointers and Unknown for others is not modelled.
- `src/allo_libc.c`, `src/allo_page_posix.h`: foreign calls, replaced by the contracts of `Child` and `Os`.
- `src/allo_mtx.c`: lock, one call, unlock. `src/allo_buffer.c`: the arena's bump in one fixed block.
- `allo_calloc` outside construction, NULL arguments of the constructors, and address sanitizer poisoning.
