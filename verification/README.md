# Kernel memory and driver core: a verified model

This project models the memory core of the kernel and the driver code whose correctness rests
on arithmetic or on shared state, and proves what that code promises.

* **Heap.** `malloc`, `free` and the aligned allocators work on block headers in one word
  memory. Beside them a ghost list of blocks and a set of grants (what each live call handed
  out) carry the specification: a tiling invariant, a canonical form, and runs that mix heap
  calls with client writes.
* **Page tables.** The mapping loops build a radix tree out of pages of that heap, in that
  memory. The processor's walk of the tables refines a flat map from pages to entries.
  The boot sequence is proved against a last-writer-wins override of flat maps. `Processor.dfy`
  says independently, level by level and with access rights, what the hardware makes of the
  tables, and the mapping calls and the boot sequence are stated byte by byte in those terms.
* **xHCI rings.** Driver and controller are two parties over a ring of cycle bits. Each store
  of the driver and each step of the controller is a step of its own, and they come in any
  order the pacing allows. The controller's half is that of sections 4.9.2 to 4.9.4 of the xHCI 1.2
  specification.
* **Checked arithmetic and data movement.** CRC-32, proved to be polynomial division over
  GF(2), and the GPT checks on packed headers, the Internet checksum of RFC 1071 and the
  in-place echo reply, the AHCI scatter table, the memory copies and the scroll that
  relies on one of them, and the decimal and hexadecimal printers with the parser.

Integers are unbounded; every place where the code's width shows is written out as a remainder
or a mask.

## Assumptions

* `free` and its kin get null or a live pointer; `align` is zero or a power of two; heap base
  and size are multiples of 16; the header is 32 bytes. Sizes whose aligned total would wrap in
  the 64-bit sum or in the rounding of `malloc` are excluded for the aligned allocators; for
  `malloc` itself they are included.
* The mapping calls get page-aligned addresses (`Map_memory` rounds its own), flags outside
  the address bits, ranges that do not wrap and physical ends up to 2^52, and the free blocks together have room for the
  tables they need: `alloc_page` does not test for null. `Boot.TablesBounded` turns that into a
  check on range lengths.
* A ring has at least two slots, drivers enqueue no Link TRB, and `enqueue` is called with
  room: it has no test of its own. `ProducerRing.OverrunStrands` shows the bound is exact.
* The GPT header's own size field is at most 92; the ICMP buffer holds the longest headers and
  the datagram it announces; the AHCI sector size is between 1 and 8192 and the buffer lies in
  the direct map; the back buffer holds height times pitch pixels, a product below 2^32.

## Findings

* AHCI: the entry count is cut to 16 bits before it is compared with 8, so some huge requests
  are accepted with too few entries, and with 512-byte sectors a count of zero is accepted
  with an entry written just before the table (`Ahci.FaithfulIff`, `Ahci.HugeCountAccepted`,
  `Ahci.ZeroCountAccepted`).
* `memcpy` is not safe for a destination inside the source (`MemCommon.MemcpyIff`); the scroll
  only uses the safe direction.
* `scroll` computes its distance in 32 bits; from 2^28 lines on it can move the screen too
  little (`Framebuffer.ScrollIff`).
* `to_str` prints the least 32-bit integer as a lone minus sign, taking negation to wrap
  (`Text.RoundTripIff`).
* `malloc_boundry` refuses a request of size zero whose first aligned address is a multiple of
  the boundary (`Heap.KernelHeap.MallocBoundary`, `Alignment.EmptyRefused`,
  `Alignment.EmptyRefusedAt16`).
* `malloc` answers requests above 2^64 - 16 with a block too small for them
  (`HeapCanonical.MallocPayload`, `HeapCanonical.HugeRequestServed`).
* The echo handler answers requests whose header length is below five words. With one or two
  words the header checksum is stored outside the header, and the reply's header verifies only
  if the request's did (`Icmp.ReplyVerifies`, `Icmp.ShortHeaderFails`). A total length that
  ends before the ICMP checksum field leaves that checksum wrong.
* A comment in `src/kernel/Paging.cpp` says only 0 to 136 MB can be mapped; the code has no
  such limit, and the model follows the code.

## Model

| member | source | states |
|---|---|---|
| HeapCanonical.CanonicalForm | src/kernel/Memory/heap.cpp:25-73 | two well-formed block lists of one heap are equal if and only if their sets of used blocks are: the list is a function of what is in use |
| HeapCanonical.RunKeeps | src/kernel/Memory/heap.cpp:25-73 | over every run of legal malloc and free calls the blocks tile the heap exactly in address order, in 16-byte units, with no two free neighbours, and sizes plus 32 per block add to the heap size |
| HeapCanonical.RunsAgree | src/kernel/Memory/heap.cpp:25-73 | two histories of one heap end in the same list if and only if they leave the same blocks in use |
| HeapCanonical.FreesCommute | src/kernel/Memory/heap.cpp:52-73 | freeing two live pointers in either order is legal and gives the same list |
| HeapCanonical.FreeAllAnyOrder | src/kernel/Memory/heap.cpp:52-73 | freeing every live pointer once, in any order, is legal and gives the one initial block |
| HeapCanonical.FreeUndoesMalloc | src/kernel/Memory/heap.cpp:25-73 | free(malloc(n)) restores the block list exactly, whether malloc split a block or not |
| HeapCanonical.FreeRemovesPointer | src/kernel/Memory/heap.cpp:52-73 | free takes its pointer, and no other, out of the live pointers, and its block, and no other, out of use |
| HeapCanonical.MallocTakesLowestFit | src/kernel/Memory/heap.cpp:27-49 | malloc takes the lowest-addressed free block that fits and fails exactly when none fits |
| HeapCanonical.MallocPayload | src/kernel/Memory/heap.cpp:25-50 | for every 64-bit request that finds a block: the payload is 16-byte aligned and disjoint from every other payload and header, and it holds the request if and only if that is at most 2^64 - 16 |
| HeapCanonical.LittleWasted | src/kernel/Memory/heap.cpp:30-46 | the block handed out has exactly the 16-byte units asked for and leaves a free block of at least one unit behind it, or it is the whole free block and is less than 48 bytes larger |
| HeapCanonical.HugeRequestServed | src/kernel/Memory/heap.cpp:25-50 | a fresh 80-byte heap answers a request for 2^64 - 1 bytes with an empty block |
| HeapCanonical.RoundingCoversIff | src/kernel/Memory/heap.cpp:26 | the 64-bit rounding covers the request exactly when the request is at most 2^64 - 16 |
| HeapModel.RoundUp16Is | src/kernel/Memory/heap.cpp:26 | the rounding gives the next multiple of 16, or 0 for the sizes that wrap |
| HeapModel.AllocAtKeeps | src/kernel/Memory/heap.cpp:27-46 | taking a fitting block, with or without a split, keeps tiling, units and coalescing |
| HeapModel.AllocAtUsed | src/kernel/Memory/heap.cpp:27-46 | taking a block adds exactly one block to the used set |
| HeapModel.ReleaseKeeps | src/kernel/Memory/heap.cpp:52-73 | both merge loops together keep the invariant, coalesce completely and remove exactly the freed block from the used set |
| HeapModel.HeapAccounts | src/kernel/Memory/heap.cpp:166-188 | block sizes plus 32 per block equal the heap size, and free plus used bytes equal all bytes |
| HeapModel.UsedBytesTaken | src/kernel/Memory/heap.cpp:27-46 | taking a block adds exactly that block's bytes to the used total |
| HeapModel.UsedBytesReleased | src/kernel/Memory/heap.cpp:52-73 | freeing a block takes exactly its bytes out of the used total, however many neighbours it merges with |
| HeapLayout.SplitRepresents | src/kernel/Memory/heap.cpp:30-42 | the split's stores into header words leave memory holding the split list, next and prev inverse |
| HeapLayout.MergeRepresents | src/kernel/Memory/heap.cpp:57-72 | one merge's stores leave memory holding the merged list, next and prev inverse |
| HeapGrants.ClientStore | src/kernel/Memory/heap.cpp:25-100 | a write inside memory handed to a client disturbs no header and no hidden raw pointer |
| HeapGrants.HideRaw | src/kernel/Memory/heap.cpp:75-91 | writing the hidden word below an aligned pointer damages neither headers nor other grants |
| HeapGrants.GrantsDisjoint | src/kernel/Memory/heap.cpp:25-91 | memory handed out by distinct live calls never overlaps, hidden words included, and lies inside the heap |
| HeapSteps.StepKeeps | src/kernel/Memory/heap.cpp:25-164 | malloc, free, hiding a pointer and client writes each keep the full memory-level invariant |
| HeapSteps.RunInvariant | src/kernel/Memory/heap.cpp:25-164 | the invariant holds in every state of every interleaving of those steps |
| HeapSteps.HiddenPointerIntact | src/kernel/Memory/heap.cpp:93-100 | in every state of every run the word below each aligned pointer is still the raw pointer, and freeing it releases exactly the block that call obtained |
| HeapSteps.NoGrantsNoBlocks | src/kernel/Memory/heap.cpp:52-100 | no leaks: when every grant has been given back the heap is its single initial block |
| HeapSteps.MallocThenFree | src/kernel/Memory/heap.cpp:25-73 | at memory level, malloc then free restores list and grants and changes no live payload |
| HeapSteps.AlignedBlockIsNew | src/kernel/Memory/heap.cpp:75-91 | an aligned result lies in memory no earlier live block or client owned |
| HeapSteps.MallocServes | src/kernel/Memory/heap.cpp:25-50 | a request of at most 2^64 - 16 bytes gets null exactly when no free block has its 16-byte units, and then nothing changed; otherwise it gets a 16-byte aligned pointer into the lowest such block and exactly one new grant, of the bytes asked for |
| Bits.AlignDown | src/kernel/Memory/heap.cpp:85 | x & ~(b - 1) is x rounded down to a multiple of b, for every power of two b |
| Bits.PowerOfTwoTest | src/kernel/Memory/heap.cpp:108 | b & (b - 1) is zero exactly for powers of two |
| Alignment.AlignUpIs | src/kernel/Memory/heap.cpp:85 | the aligned address is the next multiple of align at or above base |
| Alignment.PlaceResult | src/kernel/Memory/heap.cpp:115-149 | placement succeeds with an aligned block inside one boundary window, inside the raw block and clear of the hidden word; for nonzero size and boundary it fails exactly when size exceeds boundary; error 5 is unreachable |
| Alignment.PlaceNonempty | src/kernel/Memory/heap.cpp:123-142 | the first position crosses a window exactly when its offset leaves no room, and the moved one exactly when size exceeds boundary |
| Alignment.EmptyRefused | src/kernel/Memory/heap.cpp:123-142 | an empty request is refused whenever the boundary is at most the alignment or at most 8, whatever the raw block |
| Alignment.EmptyRefusedAt16 | src/kernel/Memory/heap.cpp:123-142 | one such input: no byte, alignment 1, boundary 8, raw block at 16 |
| Alignment.PlaceIn | src/kernel/Memory/heap.cpp:123-149 | the branches reach the outcome the placement analysis is about |
| Heap.KernelHeap.constructor | src/kernel/Memory/heap.cpp:13-22 | one free block over the whole range, nothing granted |
| Heap.KernelHeap.Malloc | src/kernel/Memory/heap.cpp:25-50 | the walk over header words refines first fit on the list; on failure nothing changes; live payloads are untouched; requests up to 2^64 - 16 bytes are served as HeapSteps.MallocServes says |
| Heap.KernelHeap.Take | src/kernel/Memory/heap.cpp:30-45 | the fit branch turns the list into the split or taken one and touches no live payload |
| Heap.KernelHeap.Split | src/kernel/Memory/heap.cpp:32-41 | the stores of a split, as one update of memory |
| Heap.KernelHeap.Free | src/kernel/Memory/heap.cpp:52-73 | refines coalescing free on the list; the pointer's grant and no other is withdrawn; other payloads are untouched |
| Heap.KernelHeap.MergeRight | src/kernel/Memory/heap.cpp:57-64 | the loop swallows every free successor and changes headers only |
| Heap.KernelHeap.MergeLeft | src/kernel/Memory/heap.cpp:66-72 | every free predecessor in turn swallows the block; only headers change |
| Heap.KernelHeap.MallocAlign | src/kernel/Memory/heap.cpp:75-91 | null with nothing changed when no block fits, otherwise an aligned pointer over a hidden raw pointer to the block first fit chose |
| Heap.KernelHeap.FreeAlign | src/kernel/Memory/heap.cpp:93-100 | frees exactly the block the aligned call obtained; free_boundry has the same body (157-164) |
| Heap.KernelHeap.MallocBoundary | src/kernel/Memory/heap.cpp:102-155 | each error number exactly under its condition, for empty requests too (error 4 exactly when the first aligned address starts a boundary window); error 5 never; any failure leaves list and grants as they were; success is aligned and within one boundary window |
| Heap.KernelHeap.GiveBack | src/kernel/Memory/heap.cpp:139-148 | free(raw) on an error path puts the list back exactly as before the call |
| Heap.KernelHeap.ClientWrite | src/kernel/Memory/heap.cpp:75-100 | a client's own stores keep the heap valid |
| Heap.KernelHeap.CheckHeap | src/kernel/Memory/heap.cpp:166-172 | the sum over the linked list, equal to the heap size less 32 per block |
| Heap.KernelHeap.CheckHalf | src/kernel/Memory/heap.cpp:174-188 | the free or the used part of that sum |
| PageModel.WalkIsLeafFromRoot | src/kernel/Paging.cpp:59-89 | the processor's four-level walk reads exactly the leaf entry the tree assigns to a page, for every 48-bit page |
| PageModel.LinkTable | src/kernel/Paging.cpp:69-84 | linking a zeroed page keeps the tables a tree and changes no translation |
| PageModel.WriteLeaf | src/kernel/Paging.cpp:86-87 | writing one leaf entry changes that page's translation and no other |
| PageModel.TreeFrame | src/kernel/Paging.cpp:59-89 | memory changes outside the table pages change no translation |
| PageTranslation.TranslateIsLeaf | src/kernel/Paging.cpp:59-89 | through the tables the code builds, the processor (4-level paging with large pages and the rights of every level, sections 4.5 and 4.6 of Intel SDM Volume 3A) translates every address by the leaf entry the walk reaches: interior entries grant every right and are never large pages |
| PageTranslation.TableEntryGrants | src/kernel/Paging.cpp:69-74 | an interior entry is present, writable, open to user mode and executable, is no large page, and leads back to its table |
| PageTranslation.LeafGrants | src/kernel/Paging.cpp:87 | a leaf entry for page p gives its byte p + offset with exactly the rights of the flags |
| PageTranslation.TouchesIff | src/kernel/Paging.cpp:59-60 | the pages that hold a byte of a range, a partial last page included, are exactly those the loop visits |
| PageTranslation.MappedBytes | src/kernel/Paging.cpp:59-89 | after the override each byte of the range translates to its own target byte and pages holding no byte of it keep their entry |
| PageTranslation.RangeTranslated | src/kernel/Paging.cpp:59-89 | so a mapping call over two tree states is a byte-by-byte mapping for the processor |
| PageMapping.MappedIsOverride | src/kernel/Paging.cpp:59-89 | for at most 2^48 bytes: page v + 4096 i gets p + 4096 i with the flags for each page of the range, every other page keeps its entry |
| PageMapping.LeafEntryDecodes | src/kernel/Paging.cpp:87 | address and flags read back from a leaf entry are the ones mapped |
| PageMapping.NamingEntryIs | src/kernel/Paging.cpp:71 | or-ing Present, Writable and User into an aligned address is addition, so interior entries decode |
| PageMapping.EntryMasks | src/kernel/Paging.cpp:69-74 | entry & ~0xFFF and entry & Present recover page and present bit |
| PageMapping.IndexBitsAre | src/kernel/Paging.cpp:64-67 | shift and 0x1FF mask give the radix-512 digit of the page number at each level |
| PageMapping.NeededAtMostThreeEach | src/kernel/Paging.cpp:59-89 | mapping n pages needs at most 3n tables |
| PageMapping.NeededCount | src/kernel/Paging.cpp:59-89 | n consecutive pages need at most n/512 + n/2^18 + n/2^27 + 6 tables |
| PageMapping.RoomServes | src/kernel/Paging.cpp:19-23 | a page allocation succeeds if and only if the free blocks together have room for one page |
| PageMapping.RoomAfter | src/kernel/Paging.cpp:19-23 | wherever first fit puts it, a page allocation lowers the number of pages the free blocks still serve by exactly one |
| Paging.TablePagesAreKept | src/kernel/Paging.cpp:11-23 | every word of every table lies where heap calls and other clients may not write |
| Paging.LinkedTables | src/kernel/Paging.cpp:69-72 | linking an allocated page adds one table, changes no translation and keeps the heap intact |
| Paging.LeafStored | src/kernel/Paging.cpp:86-87 | a leaf store changes one translation and keeps tree and heap intact |
| Paging.OneMoreMapped | src/kernel/Paging.cpp:60-88 | one more page of a range keeps the account of the whole call: pages mapped so far, one grant for each new table, nothing allocated where tables were there, other clients untouched |
| Paging.IdentityTranslated | src/kernel/Paging.cpp:27-57 | once the loop has mapped its pages the processor translates every byte of the outward-rounded range to itself |
| Paging.PageTables.constructor | src/kernel/Paging.cpp:12-17 | a cleared PML4 is a valid tree in which nothing is mapped |
| Paging.PageTables.AllocPage | src/kernel/Paging.cpp:19-23 | a zeroed page that is none of the tables, returned by physical address; tables and clients keep their contents |
| Paging.PageTables.ClearPage | src/kernel/Paging.cpp:21 | exactly the page is zeroed and the heap stays valid |
| Paging.PageTables.Link | src/kernel/Paging.cpp:69-72 | one table is added where none was, no translation changes |
| Paging.PageTables.Descend | src/kernel/Paging.cpp:69-74 | a present entry is followed and never replaced, a missing one is linked first; no translation changes |
| Paging.PageTables.MapPage | src/kernel/Paging.cpp:61-87 | one page's translation is replaced, no other; nothing is allocated when its tables exist |
| Paging.PageTables.MapMemoryVp | src/kernel/Paging.cpp:59-89 | for up to 2^48 bytes the processor translates every byte virt + o of the range to phys + o with the rights of the flags, and every address in no page of the range as before; the walk of every 48-bit page is the flat-map override; the new tables are exactly those the range needs; a range already covered allocates nothing; other clients are untouched |
| Paging.PageTables.MapMemory | src/kernel/Paging.cpp:27-57 | the same for the range from start rounded down to end rounded up to 4096 bytes, each byte translating to itself |
| PagingClients.OtherStepKeepsTables | src/kernel/Paging.cpp:19-56 | any heap call or write of another client keeps tree and translations |
| PagingClients.OtherRunKeepsTables | src/kernel/Paging.cpp:19-56 | so does every run of such steps |
| PagingClients.OtherRunKeepsTranslations | src/kernel/Paging.cpp:19-56 | and every address translates for the processor as it did before the run |
| PagingClients.TablesAreDisjoint | src/kernel/Paging.cpp:19-56 | table pages share no byte with each other or with any other live grant, and lie inside the heap |
| Boot.Init | src/kernel/system.cpp:38-66 | after the set-up every byte of a usable, reclaimable, ACPI or framebuffer entry translates to v - hhdm_offset, every other kernel byte to its physical byte, every other byte of the first 96 MiB to itself, and heap bytes apart from those to v - hhdm_offset, with the rights of each profile; the walks are exactly the last-writer-wins flat map of the calls; the tables are exactly those needed, one heap grant each besides PML4 |
| Boot.DirectMapTranslates | src/kernel/system.cpp:53-66 | every byte of every listed memory-map entry, up to its last, translates to v - hhdm_offset, writable and not executable |
| Boot.HeapTranslates | src/kernel/system.cpp:43-50 | so does every heap byte in no page of the identity and kernel ranges |
| Boot.KernelTranslates | src/kernel/system.cpp:49-50 | every kernel byte outside the direct map translates to kernel_phys plus its offset, writable and executable |
| Boot.IdentityTranslates | src/kernel/system.cpp:47 | every byte of the first 96 MiB outside the direct map and the kernel translates to itself, executable and read-only |
| Boot.FlatTranslates | src/kernel/system.cpp:38-66 | the four promises together, for every address |
| Boot.LoopMisses | src/kernel/system.cpp:53-66 | the memory-map loop leaves every page that holds no byte of a listed entry as the first three calls left it |
| Boot.ListedIs | src/kernel/system.cpp:55-60 | the kinds the switch maps are all but reserved memory, bad memory and the kernel's own pages |
| Boot.DirectPageStored | src/kernel/system.cpp:53-66 | every page of every listed entry ends with the direct entry |
| Boot.HeapPageStored | src/kernel/system.cpp:43-50 | so does every heap page outside the other two ranges |
| Boot.DirectStores | src/kernel/system.cpp:43-66 | heap mapping and direct-map loop store the same entry for a page, so their order does not matter |
| Boot.DirectEntryDecodes | src/kernel/system.cpp:53-66 | that entry is present and decodes to the page's physical address |
| Boot.FlatAfterSuffix | src/kernel/system.cpp:38-66 | splitting off calls that agree on a page: the page has their entry if one covers it, else the earlier one |
| Boot.EntryCallsAre | src/kernel/system.cpp:53-66 | the loop makes one call for each entry of a listed kind and no other |
| Boot.TablesBounded | src/kernel/system.cpp:38-66 | the tables the whole sequence can need, bounded from the range lengths alone |
| Boot.MapNext | src/kernel/system.cpp:44-61 | each call advances the flat map by one |
| Boot.MapIdentity | src/kernel/system.cpp:47 | the identity call advances it by the first 96 MiB |
| Boot.Start | src/kernel/system.cpp:39-43 | empty tables over an empty heap, with room for every table of the sequence |
| Boot.ClearPml4 | src/kernel/Paging.cpp:14-17 | all 512 entries are zero |
| ProducerRing.RunDelivers | src/Drivers/USB/xHCI/xHCI_rings.cpp:25-34 | over any interleaving of the driver's stores, the one of the TRB and the one of the Link, with controller steps, and any number of laps: the controller consumes a prefix of what was enqueued, once each and in order, and stops only after all of it, at the enqueue point |
| ProducerRing.ProduceKeeps | src/Drivers/USB/xHCI/xHCI_rings.cpp:25-34 | a whole enqueue keeps the shared invariant while the controller is less than a ring behind, the Link slot counted |
| ProducerRing.StoreKeeps | src/Drivers/USB/xHCI/xHCI_rings.cpp:26-29 | so does its first store alone, which may leave the wrap under way |
| ProducerRing.HandOverKeeps | src/Drivers/USB/xHCI/xHCI_rings.cpp:29-33 | and the second, wherever the controller went in between, past the Link included |
| ProducerRing.LinkFollowedEarly | src/Drivers/USB/xHCI/xHCI_rings.cpp:21-31 | a state in which the controller passes the Link between the two stores, because the Link already carries its cycle bit |
| ProducerRing.EnqueueIsItsSteps | src/Drivers/USB/xHCI/xHCI_rings.cpp:25-34 | an enqueue is the run of its one or two stores |
| ProducerRing.ConsumeKeeps | src/Drivers/USB/xHCI/xHCI_rings.cpp:25-34 | a controller step keeps the invariant, the Link TRB included |
| ProducerRing.StopsAtEnqueuePoint | src/Drivers/USB/xHCI/xHCI_rings.cpp:25-34 | the controller sees a foreign cycle bit exactly where the driver stores next, the wrap under way included, with everything consumed |
| ProducerRing.Drains | src/Drivers/USB/xHCI/xHCI_rings.cpp:25-34 | left alone, even in the middle of an enqueue, the controller consumes everything stored, in one step per TRB and at most one for the Link |
| ProducerRing.OverrunStrands | src/Drivers/USB/xHCI/xHCI_rings.cpp:25-34 | the room bound is exact: an enqueue without room strands the controller with commands outstanding |
| ProducerRing.BatchIsContiguous | src/Drivers/USB/xHCI/xHCI_rings.cpp:155-181 | after can_enqueue(n) the next n enqueues fill n consecutive slots, each with its own parameter, status and control word apart from the cycle bit, and with one cycle bit; they touch no other data slot and keep the Link slot a Link |
| ProducerRing.RefusedBatchWraps | src/Drivers/USB/xHCI/xHCI_rings.cpp:155-181 | can_enqueue refuses exactly the batches longer than the slots before the Link, and such a batch wraps before its last TRB |
| ProducerRing.XhciRing.CanEnqueueTrbs | src/Drivers/USB/xHCI/xHCI_rings.cpp:155-162 | true exactly when n slots lie between the enqueue pointer and the Link |
| ProducerRing.InitInv | src/Drivers/USB/xHCI/xHCI_rings.cpp:10-23 | a new ring satisfies the shared invariant |
| ProducerRing.XhciRing.constructor | src/Drivers/USB/xHCI/xHCI_rings.cpp:10-23 | zeroed slots, then a Link to the base with type 6, toggle and cycle bit set; cycle bit 1, enqueue pointer 0 |
| ProducerRing.XhciRing.EnqueueTrb | src/Drivers/USB/xHCI/xHCI_rings.cpp:25-34 | the slot gets the caller's parameter, status and control word with the cycle bit replaced; in the last data slot the Link control word becomes type 6, toggle and that bit, and pointer and bit wrap; every other slot is kept; at most two stores, in that order |
| ProducerRing.XhciRing.StoreSlot | src/Drivers/USB/xHCI/xHCI_rings.cpp:27-29 | the first store is the model's first step |
| ProducerRing.XhciRing.RelinkRing | src/Drivers/USB/xHCI/xHCI_rings.cpp:30-32 | the second is its second |
| Trbs.LinkControlIs | src/Drivers/USB/xHCI/xHCI_rings.cpp:30 | the Link control word is a Link with toggle and the given cycle bit |
| Trbs.CycleSet | src/Drivers/USB/xHCI/xHCI_rings.cpp:26 | storing the cycle bit replaces bit 0 of the control word and keeps parameter, status and every other control bit |
| EventRing.RunDelivers | src/Drivers/USB/xHCI/xHCI_rings.cpp:70-116 | over any interleaving each event the controller produces is delivered once and in order across wraps; the driver sees none exactly when all are delivered |
| EventRing.HasEventIffUndelivered | src/Drivers/USB/xHCI/xHCI_rings.cpp:70-72 | the cycle test is true exactly when an undelivered event exists |
| EventRing.CallIsBounded | src/Drivers/USB/xHCI/xHCI_rings.cpp:74-89 | even with the controller producing meanwhile, a call delivers less than a ring of events, since ERDP moves only at its end |
| EventRing.CallTakesAllUndelivered | src/Drivers/USB/xHCI/xHCI_rings.cpp:74-82 | on an unchanging ring the run of expected cycle bits is exactly the undelivered events |
| EventRing.RunIsUndelivered | src/Drivers/USB/xHCI/xHCI_rings.cpp:74-82 | the longest run of expected cycle bits holds the undelivered events in order, and the controller stands past it |
| EventRing.CallEmpties | src/Drivers/USB/xHCI/xHCI_rings.cpp:74-89 | taking every undelivered event and writing ERDP is a run of the two-party system, and ends with everything delivered |
| EventRing.ErdpDecodes | src/Drivers/USB/xHCI/xHCI_rings.cpp:86-100 | base + 16 * slot survives or-ing EHB: the address bits of the register, 63 to 4, read back that address, and bit 3 is set |
| EventRing.XhciEventRing.constructor | src/Drivers/USB/xHCI/xHCI_rings.cpp:36-68 | an empty ring, ERDP at its base: it matches the start of the two-party system |
| EventRing.XhciEventRing.DequeueTrb | src/Drivers/USB/xHCI/xHCI_rings.cpp:102-116 | the dequeue slot and the advance, or nothing and no change |
| EventRing.XhciEventRing.DequeueEvents | src/Drivers/USB/xHCI/xHCI_rings.cpp:74-89 | the slots are consecutive, at most one lap, all with the expected cycle bit; the next slot has not; the controller reads the dequeue slot back from ERDP, 16 bytes a slot from the base, with EHB set; against a controller that keeps the protocol, whose own ERDP slot is that decoded one, they hold exactly the undelivered events, in order, and nothing is left |
| EventRing.XhciEventRing.TakeEvents | src/Drivers/USB/xHCI/xHCI_rings.cpp:75-82 | the loop takes the longest run of expected cycle bits |
| EventRing.XhciEventRing.UpdateErdpRegister | src/Drivers/USB/xHCI/xHCI_rings.cpp:97-100 | the register holds the ring's base plus 16 bytes for each slot before the dequeue slot |
| CrcPolynomial.ComputeCrc32 | src/Drivers/fs/partition/partition_manager.cpp:7-19 | the nested loops compute the bit-reflected, complemented remainder of the message by x^32 + x^26 + x^23 + x^22 + x^16 + x^12 + x^11 + x^10 + x^8 + x^7 + x^5 + x^4 + x^2 + x + 1, started from all ones, which is the function the algebra below is about |
| CrcPolynomial.CrcIsRemainder | src/Drivers/fs/partition/partition_manager.cpp:7-19 | a word is the CRC-32 of a message, defined by polynomial division over GF(2), exactly when it is what the code computes |
| CrcPolynomial.RegisterCongruent | src/Drivers/fs/partition/partition_manager.cpp:7-19 | after any data the register is congruent to the message times x^32, first 32 bits complemented, modulo the generator |
| CrcPolynomial.ShiftPoly | src/Drivers/fs/partition/partition_manager.cpp:13-14 | one round of the inner loop multiplies the register by x and takes the generator out exactly when x^32 appears |
| CrcPolynomial.PolyIs | src/Drivers/fs/partition/partition_manager.cpp:14 | the constant holds the generator's coefficients below x^32, lowest bit first |
| CrcPolynomial.CheckValue | src/Drivers/fs/partition/partition_manager.cpp:7-19 | the CRC of the ASCII digits 1 to 9 is 0xCBF43926 |
| Polynomials.RemainderUnique | src/Drivers/fs/partition/partition_manager.cpp:7-19 | a message has only one remainder of degree below 32 by the generator |
| Crc.CrcAffine | src/Drivers/fs/partition/partition_manager.cpp:7-19 | crc32 of a xor b xor c is the xor of the three crcs (Plus is ^), for equal lengths |
| Crc.RegisterInjective | src/Drivers/fs/partition/partition_manager.cpp:10-17 | distinct registers stay distinct under the same data |
| Crc.FourBytes | src/Drivers/fs/partition/partition_manager.cpp:10-17 | four bytes fed one by one are 32 polynomial shifts of the register plus their word |
| Crc.BurstDetected | src/Drivers/fs/partition/partition_manager.cpp:7-19 | messages that differ only within four consecutive bytes have equal crcs exactly when they are equal |
| Gpt.ValidateGpt | src/Drivers/fs/partition/partition_manager.cpp:105-126 | accepts exactly signature, matching checksum over the cleared copy and header LBA 1 |
| Gpt.HeaderAcceptedIff | src/Drivers/fs/partition/partition_manager.cpp:105-126 | a packed little-endian header is accepted exactly when its signature field reads EFI PART, its checksum field is the CRC-32, as polynomial remainder, of its first header_size bytes with that field zeroed, and lba_header is 1 |
| Gpt.HeaderBurstRejected | src/Drivers/fs/partition/partition_manager.cpp:105-126 | a change of up to four consecutive bytes to a valid header, outside the size field and not straddling the checksum field, keeps the checksum matching exactly when no checked byte changed |
| Gpt.ValidateEntries | src/Drivers/fs/partition/partition_manager.cpp:128-137 | accepts exactly when the array's crc is the stored one, the array size wrapping at 32 bits |
| Gpt.EntriesAcceptedIff | src/Drivers/fs/partition/partition_manager.cpp:128-137 | the entry array is accepted exactly when the header's partition_entry_checksum is the CRC-32, as polynomial remainder, of its first size times count bytes, modulo 2^32 |
| Gpt.EntriesBurstRejected | src/Drivers/fs/partition/partition_manager.cpp:128-137 | a change within four bytes of a valid entry array is accepted exactly when no checked byte changed |
| InternetChecksum.ComputeChecksum | src/Drivers/Network/Common.cpp:52-72 | up to 131074 bytes the value stored is the Internet checksum of RFC 1071; for every length the pointer loop and the folding loop compute the complemented folded word sum; a length not positive sums nothing |
| InternetChecksum.ChecksumIff | src/Drivers/Network/Common.cpp:52-72 | up to 131074 bytes a value is the one stored exactly when, read as the bytes lie in memory, it complements the message taken as one big-endian number modulo 65535, odd lengths padded with a zero byte, all ones only for an all-zero message (RFC 1071) |
| InternetChecksum.VerifiesIff | src/Drivers/Network/Common.cpp:52-72 | a message's recomputed checksum is 0 exactly when the message, read as a number, is a nonzero multiple of 65535 |
| InternetChecksum.NoOverflowIff | src/Drivers/Network/Common.cpp:55-64 | the 32-bit sum is exact for all messages of n bytes if and only if n is at most 131074 |
| InternetChecksum.FoldKeeps | src/Drivers/Network/Common.cpp:67-69 | folding keeps the residue modulo 65535 and gives zero only for zero |
| InternetChecksum.TwoRounds | src/Drivers/Network/Common.cpp:67-69 | a 32-bit sum is folded after at most two rounds |
| InternetChecksum.StoredChecksumVerifies | src/Drivers/Network/Common.cpp:52-72 | a checksum stored in its zeroed aligned field makes the recomputed checksum 0 |
| InternetChecksum.SumExchange | src/Drivers/Network/Common.cpp:57-60 | exchanging even-length pieces at even offsets leaves the sum alone |
| Icmp.ReceiveIcmp | src/Drivers/Network/IPv4/ICMP.cpp:9-43 | replies exactly to echo requests of at least 42 bytes, and then the frame is the reply; otherwise it is untouched |
| Icmp.ReplyVerifies | src/Drivers/Network/IPv4/ICMP.cpp:25-40 | for every answered request: the reply's header checksum verifies if and only if the header has at least 12 bytes or verified before, and its ICMP checksum if and only if the total length reaches four bytes past the header |
| Icmp.StandardReply | src/Drivers/Network/IPv4/ICMP.cpp:9-43 | for a 20-byte header: addresses at 26 and 30 exchanged, type and code at 34 and 35 zero, all other bytes outside the two checksums kept, and header and message, up to the big-endian total length, each a nonzero multiple of 65535 |
| Icmp.FieldsDecode | src/Drivers/Network/IPv4/ICMP.cpp:17-39 | the header length is four times the low half of byte 14, the total length the big-endian value of bytes 16 and 17 |
| Icmp.ShortHeaderFails | src/Drivers/Network/IPv4/ICMP.cpp:17-33 | an answered request, with a header length of 4, whose reply does not verify |
| Icmp.HeaderChecksumUnchanged | src/Drivers/Network/IPv4/ICMP.cpp:28-33 | the checksum stored is the one the request's own header should carry: exchanging the addresses does not change it |
| Icmp.ReplyContents | src/Drivers/Network/IPv4/ICMP.cpp:25-40 | addresses exchanged, type and code zero, and every byte outside those fields and the two checksums kept |
| Icmp.TurnAround | src/Drivers/Network/IPv4/ICMP.cpp:28-33 | the in-place writes to the IPv4 header |
| Icmp.Answer | src/Drivers/Network/IPv4/ICMP.cpp:35-39 | the in-place writes to the ICMP message |
| Ahci.FaithfulIff | src/Drivers/achi/ahci_port.cpp:148-209 | an accepted request is carried out exactly (a host-to-device FIS with C bit and LBA mode whose command is READ DMA EXT for a read and WRITE DMA EXT for a write, header direction alike, entries contiguous from the buffer, nonempty, at most 8192 bytes, covering count times sector size; LBA and count decode) if and only if 1 <= count <= 8 entries' worth, the sector size divides 8192 or one entry suffices, a 32-bit controller reaches the last chunk and the LBA has 48 bits |
| Ahci.ServableAccepted | src/Drivers/achi/ahci_port.cpp:163-168 | every request that meets those conditions is accepted |
| Ahci.FisCommand | src/Drivers/achi/ahci_port.cpp:190-196 | the device decodes the FIS as a block command in the requested direction |
| Ahci.HugeCountAccepted | src/Drivers/achi/ahci_port.cpp:163-168 | the 16-bit truncation lets a request for 512 MiB and one sector through with one entry |
| Ahci.ZeroCountAccepted | src/Drivers/achi/ahci_port.cpp:163-188 | with 512-byte sectors a zero count is accepted, announces no entry and writes a 4 MiB one before the table |
| Ahci.LengthOfFitting | src/Drivers/achi/ahci_port.cpp:163-168 | accepted counts either give the right number of entries or exceed 65535 entries' worth |
| Ahci.TooLarge | src/Drivers/achi/ahci_port.cpp:163-188 | a request that slipped past the check describes fewer bytes than it asks for |
| Ahci.LastEntry | src/Drivers/achi/ahci_port.cpp:184-188 | the last of n entries that cover the count holds exactly the remaining sectors, between 1 and 8192 bytes |
| Ahci.CoveringTable | src/Drivers/achi/ahci_port.cpp:173-188 | entries that cover the count by number describe it by bytes exactly when full entries hold whole sectors or one suffices, tile memory exactly when the addresses fit, and are each 1 to 8192 bytes |
| Ahci.TotalFrom | src/Drivers/achi/ahci_port.cpp:173-188 | entries sum to full chunks plus the last entry |
| Ahci.TilesFrom | src/Drivers/achi/ahci_port.cpp:173-188 | the entries are contiguous exactly when every base decodes to its chunk |
| Ahci.AddressesExactIff | src/Drivers/achi/ahci_port.cpp:176-186 | split addresses decode exactly when the controller is 64-bit or the last chunk starts below 4 GiB |
| Ahci.FisFields | src/Drivers/achi/ahci_port.cpp:190-206 | the LBA decodes exactly when below 2^48, the count exactly from 1 to 65536 |
| Ahci.CommandSlot.Prepare | src/Drivers/achi/ahci_port.cpp:148-209 | accepts every request the driver can serve; what it leaves in header, table and FIS makes the device perform an accepted request exactly if that one can be served; rejects exactly more than 8 entries, leaving table and FIS alone; write differs in command and header flags (211-272) |
| Ahci.CommandSlot.FillEntries | src/Drivers/achi/ahci_port.cpp:173-188 | the loop that advances buffer and reduces count leaves each entry as specified and the others zero |
| Ahci.CommandSlot.FillFis | src/Drivers/achi/ahci_port.cpp:190-206 | the FIS decodes to a block command in the requested direction, to the LBA exactly below 2^48 and to the count exactly from 1 to 65536 |
| MemCommon.MemcpyIff | src/libs/std/mem_common.cpp:4-18 | the 8-byte-stride copy equals a simultaneous copy for every memory if and only if dst is not above src or lies past its end |
| MemCommon.ForwardCopy | src/libs/std/mem_common.cpp:4-18 | from any point of the loops, a safe copy completes to the simultaneous one |
| MemCommon.StaleByte | src/libs/std/mem_common.cpp:4-18 | an overlapped source byte overwritten earlier hands its stale value on |
| MemCommon.OverlapCorrupts | src/libs/std/mem_common.cpp:4-18 | for every unsafe overlap a memory that is copied wrongly |
| MemCommon.Memcpy | src/libs/std/mem_common.cpp:4-18 | the two loops perform the step recursion and, when safe, the simultaneous copy |
| MemCommon.Memmove | src/libs/std/mem_common.cpp:20-33 | the simultaneous copy for every overlap |
| MemCommon.Memset32 | src/libs/std/mem_common.cpp:50-65 | count copies of the 32-bit value, everything else kept |
| MemCommon.PairBytes | src/libs/std/mem_common.cpp:51-58 | the 64-bit store writes the bytes of the value twice |
| Framebuffer.ScrollMovesRows | src/Drivers/GPU/framebuffer.cpp:127-128 | the copy and the fill move every pixel row up, leave background rows below and keep bytes past the screen |
| Framebuffer.ScrolledPixels | src/Drivers/GPU/framebuffer.cpp:127-128 | moving rows moves each of their 32-bit pixels and clears the rest to 0x0F0F0F |
| Framebuffer.ScrollIff | src/Drivers/GPU/framebuffer.cpp:115-128 | scrolling moves every screen up by 16 rows a line if and only if 16 times lines does not wrap, or the wrapped distance still clears the screen, or rows are empty |
| Framebuffer.PixelOfFill | src/Drivers/GPU/framebuffer.cpp:44-50 | every pixel of a filled row has the fill's colour |
| Framebuffer.Screen.Clear | src/Drivers/GPU/framebuffer.cpp:44-50 | the whole screen has the colour and is dirty |
| Framebuffer.Screen.Scroll | src/Drivers/GPU/framebuffer.cpp:104-135 | nothing when uninitialised or asked for no line; otherwise the rows move as the wrapped distance says, and when 16 times lines does not wrap every pixel becomes the one 16 rows a line below it, or 0x0F0F0F where there was none, bytes past the screen kept |
| Framebuffer.Screen.MoveAndFill | src/Drivers/GPU/framebuffer.cpp:127-128 | the overlapping copy reads every kept pixel before overwriting it |
| Text.RoundTripIff | src/libs/std/string.h:79-108 | str_to_int of the text to_str writes, whatever follows its terminator, is the value if and only if the value is not the minimum |
| Text.TextDenotes | src/libs/std/string.h:79-108 | the printed digits denote the value, after a minus sign exactly when it is negative, without a leading zero |
| Text.SignedWraps | src/libs/std/string.h:180-200 | an optional minus sign and a digit run of any length, followed by anything else, are read as their value modulo 2^32, taking overflow to wrap |
| Text.ReadThenPrint | src/libs/std/string.h:180-200 | printing the number read gives back any text in printed form that fits 32 bits |
| Text.TextFits | src/libs/std/string.h:79-108 | between 1 and 11 characters before the terminator, none of them NUL |
| Text.ToStr | src/libs/std/string.h:79-108 | the buffer holds the text and its terminator, the rest is kept |
| Text.WriteDigits | src/libs/std/string.h:88-96 | the digit loop writes the digits least significant first, at most ten |
| Text.ReverseInPlace | src/libs/std/string.h:102-106 | the swap loop reverses exactly the first n characters |
| Text.StrToInt | src/libs/std/string.h:180-200 | the loop reads the sign and the digits up to the first other character |
| Text.ParsePrefix | src/libs/std/string.h:189-198 | a run of digits that fits 32 bits, followed by anything else, is read as its value |
| Text.DigitsDenote | src/libs/std/string.h:91-95 | printed digits denote the number in their base, without a leading zero |
| Text.DigitIs | src/libs/std/string.h:91-95 | the digit characters are 0 to 9 and A to F in the order of their values |
| Text.PrintedForm | src/libs/std/string.h:91-95 | digit strings without a leading zero are exactly the printed ones |
| Text.ToHexStr | src/libs/std/string.h:152-178 | the buffer holds 0x, the digits and the terminator, at most two more than the nibbles of the type |
| Text.HexDenotes | src/libs/std/string.h:152-178 | the hexadecimal digits denote exactly the value, without a leading zero |

## Left out

- Heap.KernelHeap.Malloc: the header's boolean `free` is stored as a whole word, and memory is words at 8-byte steps; single bytes of payloads are not modelled.
- Heap.KernelHeap.MallocBoundary: aligned totals that wrap 64 bits inside the rounding of `malloc`, or in the overflow test itself, are excluded by precondition.
- Heap.KernelHeap.MallocAlign: sizes whose aligned total wraps 64 bits are excluded by precondition; the code then writes its hidden word outside the block it got.
- Heap.KernelHeap.FreeAlign: double frees and foreign pointers, which the code does not handle.
- Paging.PageTables.MapMemoryVp: unaligned addresses, which would leak into the flags, physical ends past 2^52, and null from `alloc_page`; all are excluded by precondition.
- Boot.Init: `cr3`, the TLB, `init_tss`, the choice of the heap region and everything after the memory-map loop; the 64 MiB heap is taken to be usable memory.
- PageTranslation.TranslateIsLeaf: cached translations, 5-level paging and the control registers that restrict rights further.
- ProducerRing.XhciRing.EnqueueTrb: allocation of ring memory, doorbells and memory ordering; the sixteen bytes of a TRB are taken to be written at once, and the driver's stores to be seen in program order.
- EventRing.XhciEventRing.DequeueEvents: the pointers kept into ring memory after ERDP moves; events are read during the call. The segment table and `erstba` are not modelled.
- EventRing.CallIsBounded: the controller is assumed not to pass ERDP, as section 4.9.4 of the xHCI 1.2 specification requires.
- Gpt.ValidateGpt: reading the header from disk, and headers whose size field exceeds the structure.
- Gpt.HeaderBurstRejected: changes to the size field and changes straddling the checksum field; there the code compares checksums over different bytes.
- Icmp.ReceiveIcmp: sending the frame, logging the address, and buffers too short for the lengths their own headers announce.
- Ahci.CommandSlot.Prepare: slots, error recovery and issuing the command; a slot is taken as found. The requirement that transfers have an even number of bytes is not stated.
- Text.StrToInt: signed overflow, undefined in the language, is taken to wrap.
- Text.ToStr: the floating-point branch, 64-bit integers and the buffer sizes of the `printf` family.
- Text.ToHexStr: signed types, whose value is taken as its bit pattern.
- Framebuffer.Screen.Scroll: interrupt flags, the cursor, glyphs and `swap`.
- `ipv4_to_str`: it drops the middle zero of octets such as 105, so it has no inverse to prove.
- `list_partitions`, `Ring_Buffer`, `vector`, `memset`, `memcmp`: simpler than, or the same shapes as, what is proved here.
- Port I/O, MMIO timing, MSRs, interrupt flags, uACPI, Limine, PCI enumeration, the shell and the games: hardware effects, foreign code and user interface.
