# Kernel memory and formatting: a verified model

A Dafny model of three linked parts of this x86-64 kernel, and proofs about them.

* **The kernel heap** (`kernel/src/memory/liballoc.c`). Modules `HeapLayout` and `HeapSpec` describe the heap without
  pointers: a sequence of major blocks, each with its live minor allocations in address order, and what kmalloc, kfree
  and an in-place krealloc do to it. `HeapLinks` ties that picture to the doubly linked headers, and class
  `Liballoc.Heap` is the code: it relinks headers, keeps the counters, the hint and the alignment bytes, runs the
  restartable search with its five placement cases, and copies payloads word by word. Every method is proved against
  the layout functions. `HeapRuns` states what holds in every state of every run.
* **Paging over the physical page allocator** (`kernel/src/memory/vmm.c`, `pmm.c`, `liballoc_helper.c`). `PageTables`
  is the hardware walk of four-level page tables (sections 5.3.3 to 5.3.5 of the AMD64 Architecture Programmer's
  Manual, Volume 2) and what it means for tables to be a tree. `Mapping` and `MappingLaws` are the mapping calls as
  functions on tables and their laws. Classes `Pmm.Allocator`, `Vmm.AddressSpace` and `KernelHeap.Helper` are the code,
  drawing table pages from a bitmap. `PagingRuns` is about whole runs. `KernelRoot` is where they start: pmm_init with
  a first root table, and the root vmm_init builds, two entries of which lead into the bootloader's own tables.
* **The formatter** (`kernel/src/util/printf.c`, floating point compiled out). `PrintfSpec` gives the full text of a
  format as a function, `Printf` is the code with its 32-byte digit buffer and its output sink. `RoundTrip`, `ReadBack`,
  `HashPrefix` and `Ustar` say what the text means: its shape and length, and that it reads back, also through
  `oct2bin` of `kernel/src/fs/ustar.c` and the formatter's own `_atoi`. `Directives` shows that a directive written out
  from its parts is read as these parts, and `Layouts` gives the text of each one literally, from value to spaces.

Pointers are integer addresses and 0 is NULL. Machine integers are unbounded integers with the truncations of the source
written out (`Words`). Each public call is one atomic step, as the `cli`/`sti` lock around the heap provides.

Results where the code does not do what one would expect:

* A request is served by the block requested for it exactly up to 2^32 - 4096 - 112 bytes
  (`HeapSpec.NewBlockFitsIffBounded`); above that the 32-bit block size falls short of the request. The heap methods
  take requests up to this bound.
* The pointer `liballoc_alloc` returns is never a canonical address, so every access through it faults
  (`KernelHeap.ReturnedPointerFaults`). The heap is therefore proved against the documented contract of the page hook,
  and `liballoc_alloc` for its effect on the mappings.
* A minus sign is lost exactly when the precision or the zero padding of a negative number fills the digit buffer
  (`ReadBack.SignedRoundTrip`); -1 with precision 32 reads as 1 (`ReadBack.MinusDropped`).
* `%b` prints the low 32 bits (`Layouts.UnsignedReads`).
* '-' also drops the zeros of the precision, and '0' pads a `%p` even with a precision (`Layouts.IntegerLayout`,
  `Layouts.PointerLayout`).
* With '#', digits are lost exactly when there are more than 32 or the prefix displaces more than padding zeros
  (`HashPrefix.HashRoundTrip`); `HashPrefix.HashDropsDigits` is an input that prints no digit at all.
* The bitmap of the page allocator starts in a page that is itself offered for allocation, unless it is page 0
  (`Pmm.BitmapIsOffered`).
* The kernel's own 2M mapping of vmm_init has no effect when it lies below entry 256 or 511: the copied entries replace
  it, and the tables made for it are lost (`KernelRoot.VmmInit`, `KernelRoot.Adopt`, `PagingRuns.RunKeepsLost`).

## Model

| member | source | states |
|---|---|---|
| `HeapLayout.GapsSumToFree` | kernel/src/memory/liballoc.c:328-344 | the gaps of a major, front, between and tail, sum to size - usage |
| `HeapLayout.QuickRejectSound` | kernel/src/memory/liballoc.c:341-372 | Case 1 is sound: a block with too few free bytes in all has no gap for the request |
| `HeapLayout.CountersFit` | kernel/src/memory/liballoc.c:93-94 | l_inuse <= l_allocated < 2^64 in every well-formed heap, because blocks are disjoint |
| `HeapLayout.ChunksApart` | kernel/src/memory/liballoc.c:379-536 | two live minors never overlap, headers included |
| `HeapSpec.PayloadInside` | kernel/src/memory/liballoc.c:20-34 | the aligned payload is 16-aligned and lies inside its minor, behind header and alignment byte |
| `HeapSpec.NewBlockFitsIffBounded` | kernel/src/memory/liballoc.c:185-220 | a new major holds the request that caused it if and only if the request is within the bound |
| `HeapSpec.SearchComplete` | kernel/src/memory/liballoc.c:313-568 | whatever the hint, a new major is asked for if and only if no gap of any major holds the request |
| `HeapSpec.MallocPlaces` | kernel/src/memory/liballoc.c:313-568 | in gaps, sizes and usage alone: if the best bet is a linked major h with size - usage > request + 72, the minor goes to the first major from h on with a gap of request + 72, and if there is none to the first from the root; otherwise to the first from the root; in that major into the first such gap, with size request + 32; only if no major has one, into a new major of as many pages as needed, 16 or more |
| `HeapSpec.SomeWins` | kernel/src/memory/liballoc.c:313-568 | whenever some major has such a gap, exactly one major is the one so described |
| `HeapSpec.MallocKeeps` | kernel/src/memory/liballoc.c:241-584 | kmalloc keeps minors sorted, disjoint and inside their major, majors disjoint and none empty |
| `HeapSpec.MallocCounts` | kernel/src/memory/liballoc.c:388-393 | kmalloc adds request + 32 to l_inuse, or nothing when it fails, and to l_allocated a block only if it added one |
| `HeapSpec.MallocKeepsChunks` | kernel/src/memory/liballoc.c:379-536 | every minor that was live stays live and unchanged |
| `HeapSpec.FreeKeeps` | kernel/src/memory/liballoc.c:671-697 | kfree keeps the layout well formed and leaves no major empty |
| `HeapSpec.FreeCounts` | kernel/src/memory/liballoc.c:671-697 | kfree gives back exactly the minor's size, and the major's with its last minor |
| `HeapSpec.FreeEndsOne` | kernel/src/memory/liballoc.c:594-717 | after kfree a header is live if and only if it was and is not the freed one |
| `HeapSpec.FreeUndoesMalloc` | kernel/src/memory/liballoc.c:241-717 | kfree(kmalloc(n)) restores the layout exactly, also when a major had to be added |
| `HeapSpec.ResizeKeeps` | kernel/src/memory/liballoc.c:809-818 | shrinking in place keeps layout and counters |
| `HeapSpec.ResizeIs` | kernel/src/memory/liballoc.c:809-818 | shrinking in place changes the recorded size of that one minor, and nothing else |
| `HeapLinks.UnalignRecovers` | kernel/src/memory/liballoc.c:36-44 | UNALIGN of a live payload recovers the raw pointer behind its header |
| `HeapLinks.UnalignIs` | kernel/src/memory/liballoc.c:36-44 | of any memory: an alignment byte below 32 is the distance to where UNALIGN leads, any other byte leads nowhere |
| `HeapLinks.NewChunkOnly` | kernel/src/memory/liballoc.c:379-536 | whatever is written inside the chunk of a new allocation changes no payload that was live before |
| `HeapLinks.RelinkedMinors` | kernel/src/memory/liballoc.c:378-536 | linking a minor into a gap keeps all prev, next and block pointers right and exactly the live headers magic |
| `HeapLinks.UnlinkedMinors` | kernel/src/memory/liballoc.c:671-681 | unlinking a minor keeps all prev, next and block pointers right and its magic dead |
| `HeapLinks.BypassedMajors` | kernel/src/memory/liballoc.c:688-697 | taking an empty major out keeps the major list's prev and next mutually inverse |
| `HeapLinks.AppendedMajors` | kernel/src/memory/liballoc.c:365-369 | a major added at the tail keeps the major list's prev and next mutually inverse |
| `Liballoc.MagicIffLive` | kernel/src/memory/liballoc.c:610-661 | a header carries the live magic if and only if its minor is live |
| `Liballoc.LooksOverrunIs` | kernel/src/memory/liballoc.c:618-629 | the three masked comparisons hold exactly of magics with the low byte 0xde, so not of a dead one |
| `Liballoc.Heap.constructor` | kernel/src/memory/liballoc.c:88-99 | the empty heap satisfies the invariant |
| `Liballoc.Heap.Align` | kernel/src/memory/liballoc.c:20-34 | the pointer is the next 16-aligned one with 16 bytes before it, and one byte records the distance |
| `Liballoc.Heap.AllocateNewPage` | kernel/src/memory/liballoc.c:185-235 | one empty major of the size the request needs, no 32-bit field wrapped, or NULL and a warning |
| `Liballoc.Heap.Extend` | kernel/src/memory/liballoc.c:365-369 | the new major is linked behind the last one |
| `Liballoc.Heap.NewRoot` | kernel/src/memory/liballoc.c:275-301 | an empty heap gets its root major |
| `Liballoc.Heap.PlaceIn` | kernel/src/memory/liballoc.c:376-536 | Cases 2 to 4 place the request in the first gap that holds it, and fail if and only if there is none |
| `Liballoc.Heap.FindGap` | kernel/src/memory/liballoc.c:449-536 | the loop of Case 4 finds the minor in front of the first gap that holds the request, NULL if and only if no gap does |
| `Liballoc.Heap.NextBlock` | kernel/src/memory/liballoc.c:351-369 | the step to the next major, the one restart of a search begun at the hint, or a new major |
| `Liballoc.Heap.Turn` | kernel/src/memory/liballoc.c:328-568 | one turn of the loop places the request, gives up, or moves on with the chosen block still ahead |
| `Liballoc.Heap.Search` | kernel/src/memory/liballoc.c:328-568 | the search loop terminates and ends at the block the specification chose |
| `Liballoc.Heap.Kmalloc` | kernel/src/memory/liballoc.c:241-584 | the new heap is the specified one, and the minor and pointer are where `HeapSpec.MallocPlaces` says, starting at the best bet; NULL if and only if no gap holds the request and the hook gave none; only the alignment byte of memory changes, and no byte of a live payload; the hint has at least as much room as it had and as every major the search looked at |
| `Liballoc.Heap.Kfree` | kernel/src/memory/liballoc.c:594-717 | ends exactly the freed chunk, whose header stays dead, and changes no payload byte; other headers are only counted: an error each, and an overrun if and only if the low byte of the magic is 0xde; the hint moves exactly when the freed major is left with more room than the hint, or is given back |
| `Liballoc.Heap.FreeTwice` | kernel/src/memory/liballoc.c:594-717 | freeing a chunk twice counts one error and no overrun, and otherwise is freeing it once |
| `Liballoc.Heap.MallocFree` | kernel/src/memory/liballoc.c:241-717 | kfree(kmalloc(n)) gives back the same layout, root, l_inuse and l_allocated, and no live payload byte changed |
| `Liballoc.Heap.MemSet` | kernel/src/memory/liballoc.c:107-114 | fills exactly the n bytes, for n the unsigned int counter can reach |
| `Liballoc.Heap.MemCpy` | kernel/src/memory/liballoc.c:115-138 | the word-then-byte loop is a plain copy of n bytes between disjoint regions |
| `Liballoc.Heap.Kcalloc` | kernel/src/memory/liballoc.c:723-735 | a kmalloc whose payload reads 0; no other byte changes but the alignment byte, and no byte of a live payload |
| `Liballoc.Heap.Krealloc` | kernel/src/memory/liballoc.c:739-828 | size 0 frees, NULL allocates, a dead pointer changes nothing and is counted, as an overrun if and only if the low byte of its magic is 0xde; shrinking changes only the recorded size, growing moves and keeps the old bytes; no other payload byte changes in any case, and the warning, error and overrun counts are exact |
| `HeapRuns.RunKeeps` | kernel/src/memory/liballoc.c:241-717 | over every run, callers' writes included: layout well formed, no empty major, hint NULL or linked, every alignment byte intact |
| `HeapRuns.RunConserves` | kernel/src/memory/liballoc.c:388-393 | over every run: l_inuse is what was charged minus what was given back, and no counter wraps |
| `HeapRuns.RunHolds` | kernel/src/memory/liballoc.c:241-717 | over every run: a live chunk keeps its place and size until it is freed |
| `HeapRuns.RunKeepsByte` | kernel/src/memory/liballoc.c:241-828 | over every run with callers writing into their payloads: no byte of a live chunk changes but by a write of its owner |
| `HeapRuns.RunUnaligns` | kernel/src/memory/liballoc.c:36-44 | in every state of every run UNALIGN leads from each payload back to its header |
| `HeapRuns.RunPayloadInside` | kernel/src/memory/liballoc.c:20-44 | in every state of every run: each payload is 16-aligned and inside its own chunk, behind both headers and the alignment byte |
| `HeapRuns.RunPayloadsApart` | kernel/src/memory/liballoc.c:20-44 | in every state of every run: any two live chunks are apart, headers and alignment bytes included, and so are any two majors |
| `HeapRuns.AllFreedAllReturned` | kernel/src/memory/liballoc.c:671-697 | in every run: with no live chunk there is no major left and both counters are 0 |
| `Pmm.BitmapSet` | kernel/src/memory/pmm.c:31-34 | removes exactly one page from the free set |
| `Pmm.BitmapUnset` | kernel/src/memory/pmm.c:36-39 | adds exactly one page to the free set |
| `Pmm.GetFirstUnset` | kernel/src/memory/pmm.c:47-62 | the lowest free page, 0 if there is none |
| `Pmm.Init` | kernel/src/memory/pmm.c:91-193 | clears exactly the usable pages other than page 0, with the clear bits and the counter off by 0 or 1; with n bytes of bitmap 8 * (n - 1) <= totalpages < 8 * n; null, where the code hangs, if and only if totalpages >= 8 * the length of the last entry; the bitmap address is the base of the first of the largest usable entries |
| `Pmm.LargestIs` | kernel/src/memory/pmm.c:101-130 | the segment chosen for the bitmap is the first of the longest usable entries: all usable ones are at most as long, those before it shorter |
| `Pmm.UsablePagesAre` | kernel/src/memory/pmm.c:160-187 | a page is usable if and only if it lies among the whole pages of an entry of type 1 |
| `Pmm.TotalLengthIs` | kernel/src/memory/pmm.c:101-108 | the total counts the length of every entry, of whatever type |
| `Pmm.BitmapIsOffered` | kernel/src/memory/pmm.c:101-193 | the page the bitmap starts in is offered for allocation if and only if the largest usable entry has a page and it is not page 0 |
| `Pmm.Allocator.AllocPage` | kernel/src/memory/pmm.c:196-210 | the lowest free page, which is usable and not live, or NULL exactly when the counter is used up; never the fallback 0 |
| `Pmm.Allocator.FreePage` | kernel/src/memory/pmm.c:213-218 | the page is free again and the off-by-0-or-1 is unchanged |
| `PageTables.PathUnique` | kernel/src/memory/vmm.c:57-71 | in a tree, two addresses that reach the same table agree in all indices above it |
| `PageTables.WriteElsewhere` | kernel/src/memory/vmm.c:119-151 | writing one entry leaves the translation of every address with another slot alone |
| `PageTables.LinkTree` | kernel/src/memory/vmm.c:45-71 | linking a fresh zeroed table keeps the tables a tree |
| `PageTables.LinkKeepsTranslation` | kernel/src/memory/vmm.c:57-71 | linking a fresh zeroed table changes no translation |
| `Mapping.LinkEntry` | kernel/src/memory/vmm.c:57-71 | page or flags, masked with ~0x1ff, gives the page back |
| `Mapping.SlotIsPage` | kernel/src/memory/vmm.c:119-132 | on canonical addresses the index chain is injective: same slot if and only if same page |
| `Mapping.InstallTree` | kernel/src/memory/vmm.c:119-151 | a mapping call keeps the tables a tree, whatever levels it creates |
| `Mapping.MapTranslates` | kernel/src/memory/vmm.c:73-151 | a mapping call changes the hardware translation at exactly the named page, to the given frame and rights |
| `Mapping.WritableRights` | kernel/src/memory/vmm.c:119-151 | along a path whose tables are linked writable, no table takes the write right away |
| `MappingLaws.UnmapTranslates` | kernel/src/memory/vmm.c:153-187 | unmap removes exactly the named page's translation and no table |
| `MappingLaws.MapAgain` | kernel/src/memory/vmm.c:119-187 | map, unmap, map again gives the tables back exactly and takes no page |
| `MappingLaws.LargePageIsSmallPages` | kernel/src/memory/vmm.c:73-151 | one 2M (1G) mapping translates every address as 512 4K (2M) mappings do, from an absent slot |
| `Vmm.AddressSpace.constructor` | kernel/src/memory/vmm.c:45-55 | a zeroed root table in the lowest free page, and exactly that page has left the free ones |
| `Vmm.AddressSpace.CreatePageTable` | kernel/src/memory/vmm.c:45-55 | the lowest free page becomes a zeroed table no other table uses |
| `Vmm.AddressSpace.GetPagemap` | kernel/src/memory/vmm.c:57-71 | the table of a present entry, or a new one linked with the flags |
| `Vmm.AddressSpace.Map4K` | kernel/src/memory/vmm.c:119-151 | the tables and free pages become those of the mapping function, and the translation changes at exactly this page |
| `Vmm.AddressSpace.Map2M` | kernel/src/memory/vmm.c:92-117 | the same for a 2M page |
| `Vmm.AddressSpace.Map1G` | kernel/src/memory/vmm.c:73-90 | the same for a 1G page |
| `Vmm.AddressSpace.UnmapPage` | kernel/src/memory/vmm.c:153-187 | the page faults afterwards, every other translation is as before |
| `Vmm.AddressSpace.PageWalk` | kernel/src/memory/vmm.c:190-218 | the frame the hardware walk uses, for every 4K-mapped address |
| `Vmm.WalkAfterMap` | kernel/src/memory/vmm.c:119-218 | after mapping v to p the walk of v ends in p |
| `Vmm.ThroughHigherHalf` | kernel/src/memory/memory.h:22-30 | the higher-half detour of the page walk loses no frame |
| `PagingRuns.RunKeeps` | kernel/src/memory/vmm.c:45-187 | over every run of maps of all three sizes, unmaps, allocations and frees, from any start state and also with tables outside usable memory: the tables are a tree, none lies in a free page, and each usable page is exactly one of free, held, lost or table |
| `PagingRuns.RunKeepsLost` | kernel/src/memory/vmm.c:347-348 | over every run: a page lost at the start, as vmm_init loses some, is never free, held or a table again |
| `PagingRuns.TakenIsNew` | kernel/src/memory/pmm.c:196-218 | over every run: pmm_allocpage never hands out a live table or a page still held or lost |
| `PagingRuns.RunKeepsTranslation` | kernel/src/memory/vmm.c:119-187 | over every run: an address no call names keeps its translation |
| `KernelHeap.HeapGrows` | kernel/src/memory/liballoc_helper.c:32-38 | one more heap page is mapped to its own frame, the earlier ones keep theirs |
| `KernelHeap.ShortageStep` | kernel/src/memory/liballoc_helper.c:34-38 | what the remaining pages miss was counted before the first was mapped: one table for each 2M region entered |
| `KernelHeap.Helper.Grow` | kernel/src/memory/liballoc_helper.c:32-40 | given the frames and the tables that are missing: every address from 0xFFFF_FFFF_C000_1000 up to the end of the page at the top translates to its own frame, not for user mode and, where the tables before were writable, writable; frames are pairwise distinct, neither free nor tables, and earlier ones stay |
| `KernelHeap.ReturnedPointerFaults` | kernel/src/memory/liballoc_helper.c:39 | the returned address is not canonical and never translates |
| `KernelRoot.Start` | kernel/src/kernel.c:31-32 | pmm_init and a first root table satisfy the invariant of the runs, with every usable page free or the root |
| `KernelRoot.GraftTree` | kernel/src/memory/vmm.c:347-348 | the root with entries 256 and 511 copied reaches a tree again, partly of its own tables and partly of the bootloader's |
| `KernelRoot.GraftTranslates` | kernel/src/memory/vmm.c:347-348 | addresses below the copied entries translate as under the bootloader's root, all others as before, and so do their write rights |
| `KernelRoot.CopiedAddresses` | kernel/src/memory/vmm.c:347-348 | the copied entries are those of the addresses 0xFFFF_8000_0000_0000 to 0xFFFF_807F_FFFF_FFFF and from 0xFFFF_FF80_0000_0000 on |
| `KernelRoot.Adopt` | kernel/src/memory/vmm.c:347-348 | the two entry writes keep the invariant of the runs from any state; the tables they cut off are lost, and counted as such |
| `KernelRoot.VmmInit` | kernel/src/memory/vmm.c:263-348 | after vmm_init the addresses 0xFFFF_8000_0000_0000 to 0xFFFF_807F_FFFF_FFFF and from 0xFFFF_FF80_0000_0000 on translate as under the bootloader's root, every other one to the kernel's 2M page or not at all; entries 256 and 511 of the root are the bootloader's, the others its own; the invariant of the runs holds, and the heap window is as free of large pages and as writable as the bootloader left it |
| `KernelRoot.HeapOn` | kernel/src/memory/liballoc_helper.c:6-10 | the heap invariant holds of the root vmm_init leaves, if its window has no large page: liballoc_alloc may start to grow there |
| `Printf.Vsnprintf` | kernel/src/util/printf.c:577-857 | for every count the text fits or the buffer has: the result is the full length whatever count and buffer are; the buffer holds the first min(length, count - 1) characters and a NUL, and nothing else changes |
| `Printf.Sink.Put` | kernel/src/util/printf.c:133-145 | one character more in the text, stored if and only if it is below maxlen |
| `Printf.Sink.OutRev` | kernel/src/util/printf.c:199-223 | the digit buffer reversed, with its spaces |
| `Printf.Sink.NtoaFormat` | kernel/src/util/printf.c:227-277 | padding, prefix and sign as specified, all inside the 32 bytes |
| `Printf.Sink.Ntoa` | kernel/src/util/printf.c:281-326 | the number's text, for both value types |
| `Printf.Atoi` | kernel/src/util/printf.c:188-195 | the loop is the specified decimal reading modulo 2^32 |
| `Printf.StrNLen` | kernel/src/util/printf.c:171-176 | the loop is the specified bounded length |
| `RoundTrip.DigitsRead` | kernel/src/util/printf.c:293-297 | the digits of any value read back as the value modulo base^room |
| `RoundTrip.DigitsCount` | kernel/src/util/printf.c:293-297 | n digits suffice if and only if the value is below base^n |
| `RoundTrip.FieldShape` | kernel/src/util/printf.c:227-277 | without '#', a number is spaces, the sign if it fits, zeros, digits, spaces |
| `ReadBack.IntegerLength` | kernel/src/util/printf.c:199-277 | without '#', precision <= 31 and width <= 32: the length is max(width, sign + zeros + digits) |
| `ReadBack.UnsignedRoundTrip` | kernel/src/util/printf.c:739-753 | unsigned fields read back as the argument, %b as its low 32 bits |
| `ReadBack.SignedRoundTrip` | kernel/src/util/printf.c:722-738 | signed fields read back as the argument if and only if it is non-negative or the sign has room; `Layouts.SignedReads` says which value that is |
| `ReadBack.MinusDropped` | kernel/src/util/printf.c:265-275 | -1 with precision 32 prints without its sign |
| `ReadBack.StringField` | kernel/src/util/printf.c:796-820 | a string field is the string up to NUL and precision, aligned, as long as that or the width |
| `ReadBack.StrLenIs` | kernel/src/util/printf.c:171-176 | the count stops at the first NUL or the limit |
| `Directives.DirectiveIs` | kernel/src/util/printf.c:601-681 | a directive written from flags, width, precision, length and specifier is read as just these, wherever in a format it stands: a star takes an argument, a negative one is its magnitude with '-', a negative precision is 0 |
| `Directives.FormatDirective` | kernel/src/util/printf.c:577-857 | at a directive the text goes on with its text, and behind it with what the rest of the format stands for |
| `Directives.FormatIs` | kernel/src/util/printf.c:577-857 | a format of one directive prints that directive's text |
| `Directives.FormatPlain` | kernel/src/util/printf.c:587-595 | text without % and NUL stands for itself and takes no argument |
| `Layouts.SignedArgIs` | kernel/src/util/printf.c:722-738 | the value a signed conversion reads is the one congruent to the argument modulo 2^32, 2^16 with h, 2^8 with hh, 2^64 with l, ll, j and z, in the signed range |
| `Layouts.UnsignedArgIs` | kernel/src/util/printf.c:739-753 | the same for unsigned conversions, in the unsigned range |
| `Layouts.NumeralIs` | kernel/src/util/printf.c:281-326 | the digits are digits of the base in one case of letters, read as the value and have no leading zero; a zero with a precision has none; in base 2 they are those of the low 32 bits |
| `Layouts.NumberLaid` | kernel/src/util/printf.c:199-277 | without '#', a number is its sign, zeros and digits between spaces, each count given by precision, width and flags |
| `Layouts.IntegerLayout` | kernel/src/util/printf.c:682-756 | every integer directive without '#' from its letters: its value, its digits in base 16, 8, 2 or 10 with capitals exactly for X, and its whole text |
| `Layouts.SignedReads` | kernel/src/util/printf.c:722-738 | every %d and %i reads back as its value if and only if that is not negative or the sign has room |
| `Layouts.UnsignedReads` | kernel/src/util/printf.c:739-753 | every %u, %x, %X, %o and %b without '#' reads back as its value in its base, %b as its low 32 bits |
| `Layouts.DecimalPrints` | kernel/src/util/printf.c:722-738 | %d of every int but the least reads back as that int |
| `Layouts.LeftAligned` | kernel/src/util/printf.c:602-629 | %-5d, for any width: the number and spaces behind it up to the width |
| `Layouts.NegativeWidth` | kernel/src/util/printf.c:614-629 | %*d with the width -n: the number and spaces behind it up to n |
| `Layouts.AtLeastDigits` | kernel/src/util/printf.c:631-643 | %.3d, for any precision up to 31: the sign and at least so many digits, zeros in front; a zero is zeros only |
| `Layouts.CharLayout` | kernel/src/util/printf.c:776-794 | %c is the low 8 bits of its argument, behind the spaces that fill the width, or before them with '-' |
| `Layouts.StringLayout` | kernel/src/util/printf.c:796-820 | %s is the string up to NUL or precision, behind the spaces that fill the width, or before them with '-' |
| `Layouts.PointerLayout` | kernel/src/util/printf.c:822-838 | %p without '#' is the low 64 bits in capital hexadecimal digits, zero padded to 16 with its sign |
| `Layouts.PointerPrints` | kernel/src/util/printf.c:822-838 | %p prints sixteen capital hexadecimal digits that read as the low 64 bits |
| `Layouts.Itself` | kernel/src/util/printf.c:840-849 | %% and every character that is no specifier stand for themselves and take no argument |
| `HashPrefix.HashShape` | kernel/src/util/printf.c:242-263 | with '#', a number is spaces, as much of the prefix as fits, what is left of the digits, spaces |
| `HashPrefix.CutKeepsDigits` | kernel/src/util/printf.c:242-250 | what is left of the digits reads as the value if and only if the cut takes padding zeros only |
| `HashPrefix.HashRoundTrip` | kernel/src/util/printf.c:242-263 | a printed '#' field reads back as its argument if and only if that is 0, or its digits fit the buffer and the prefix displaces padding zeros only |
| `HashPrefix.HashDropsDigits` | kernel/src/util/printf.c:243-249 | an input whose digits are all displaced by the prefix |
| `Ustar.Oct2Bin` | kernel/src/fs/ustar.c:3-14 | the positional octal value of the field modulo 2^64 |
| `Ustar.OctalRoundTrip` | kernel/src/fs/ustar.c:3-14 | oct2bin inverts zero-padded octal output of any width; the output fills its field if and only if the value fits |
| `Ustar.AtoiRoundTrip` | kernel/src/util/printf.c:188-195 | _atoi reads printed decimals modulo 2^32, so it inverts exactly those below 2^32 |

## Left out

- Liballoc.Heap.Kmalloc: requests above the bound of `NewBlockFitsIffBounded` are excluded, because the 32-bit sizes of allocate_new_page wrap there; the branch for size 0 is not in the model, since request + 32 is never 0 below the bound.
- Liballoc.Heap.Kmalloc: the page hook is a parameter that follows its documented contract (kernel/include/libk/liballoc.h:49-70), a fresh region apart from all blocks or NULL, and not `liballoc_alloc`.
- Liballoc.Heap.Kfree: the header UNALIGN leads to must be readable memory that once held a header of a block still in use; headers are typed records at their addresses, apart from the payload bytes, so a payload overrun into a header is not modelled.
- Liballoc.Heap.Kcalloc: excludes a failing inner kmalloc, whose NULL the code would write through, and products outside int.
- Liballoc.Heap.Krealloc: excludes a failing inner kmalloc, whose NULL the code would copy to.
- Liballoc.Heap.Store: stands for a caller's write into its own payload; liballoc.c has no such function.
- HeapRuns.RunKeeps: the hint may become any linked major or NULL, which is more than the code does; a moving krealloc counts as its kmalloc, the writes of its copy and its kfree.
- Pmm.Init: the bitmap is storage of its own, which is an assumption; `Pmm.BitmapIsOffered` says exactly when the code offers the page it starts in. What happens to the bitmap once that page is handed out is not modelled.
- Pmm.Init: requires an aligned, non-overlapping memory map whose usable pages have bits in the bitmap.
- Pmm.Allocator.FreePage: requires a usable page that is not free; freeing twice or freeing an unusable page is not modelled.
- pmm_allocpages, pmm_freepages, bitmap_get and the two size getters of pmm.c are not part of this model.
- Vmm.AddressSpace.Map4K: requires present flags in the low nine bits without bit 7, an aligned frame below 2^52, no large page on the path and a page for every missing level; a NULL table page is only reported by the code and not modelled.
- Vmm.AddressSpace.Map2M: requires the same, and that the entry it writes does not hold a table already; the code would cut that table off.
- Vmm.AddressSpace.Map1G: requires the same as Map2M.
- KernelRoot.HeapOn: links between tables carry an address below 2^52 and flags in the low nine bits only, which the code's mask of ~0x1ff needs; the bootloader's tables are assumed to have that form.
- Vmm.AddressSpace.PageWalk: only addresses mapped by 4K pages; the code reads whatever lies at the others. Its debug print is left out.
- Vmm.AddressSpace.UnmapPage: no large page on the path; the TLB is not modelled.
- KernelRoot.VmmInit: the bootloader's tables are a tree in pages that are not usable memory, and the kernel's frame is 2M-aligned; the tables reached from the new root are the ghost result `kernel`, and loading CR3 is not modelled.
- vmm_PMLwalk, CR3, EFER and the assembly around them are not part of this model; identity and higher-half views are the same physical memory.
- KernelHeap.Helper.Grow: asks for the frames and the missing tables, no large page in the window, and stays inside the 1 GiB window.
- Printf.Vsnprintf: requires a format that does not end inside a directive and arguments that fit; arguments are a sequence of tagged values in place of va_arg. The index does not wrap at 2^64, and the text that is kept and its NUL fit the buffer.
- printf_, sprintf_, vprintf_, fctprintf and the character sinks are thin wrappers of the same loop and are left out; so are `_ftoa`, `_etoa` and the `t` modifier, which are compiled out.
- ReadBack.SignedRoundTrip: excludes the least value of the type, whose negation overflows in C.
- Layouts.IntegerLayout: excludes the least int and long for the same reason, and '#', which `HashPrefix.HashShape` covers; so does Layouts.PointerLayout.
- Layouts.StringLayout: strings are shorter than 2^32, as the unsigned length of the code requires.
- RoundTrip.DigitsRead: division is by repeated subtraction in the specification, tied to the operators by a lemma, and bases run from 2 to 16.
- Console, framebuffer, keyboard, serial, interrupt, ACPI, boot, scheduler, file system and loader code, and the string helpers, are not part of this model.
