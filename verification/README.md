# xD-DOS: a verified model of its memory management and library core

This project models the parts of the xD-DOS kernel and C library that carry its state and its arithmetic, in Dafny
4.11, and proves what they are for. `dafny verify dfyconfig.toml` checks all of it.

| file | models |
|---|---|
| `Bits.dfy`, `Options.dfy` | machine words as the numbers they denote, `\|`, `&`, shifts and wrap-around on them |
| `Pmm.dfy`, `PageRuns.dfy` | the page allocator (`kernel/src/pmm.c`): a bitmap in place of a set of free pages |
| `PageTables.dfy`, `Entries.dfy` | the processor's four-level walk (section 5.3 of the AMD64 Architecture Programmer's Manual Volume 2), the tree of table pages, and the masks that read and build entries |
| `BootMap.dfy` | the address space of `vmm_init` as a function of where its second loop stops |
| `Vmm.dfy`, `MapRuns.dfy` | the page-table code (`kernel/src/vmm.c`) on memory indexed by physical address |
| `Blocks.dfy`, `Vma.dfy`, `HeapRuns.dfy` | the heap (`kernel/src/vma.c`): headers linked in memory, over the page tables and the page allocator |
| `Memory.dfy` | `memcpy`, `memmove`, `memset` (`libc/src/string.c`) on one memory whose addresses are array indices |
| `Kstdio.dfy` | `itoa` and the bounded formatter (`kernel/src/kstdio.c`) |
| `Wire.dfy`, `Boot.dfy`, `Acpi.dfy` | the Multiboot2 tag walk (`kernel/src/boot.c`) and the MADT walk (`kernel/src/acpi.c`) |
| `System.dfy` | the way from the boot information through the page allocator and the page tables to the first heap |

## How it is modelled

Unsigned words are natural numbers below the word size; every sum that the code takes in 64 or 32 bits and that can
leave the word is reduced explicitly. Objects the code changes in place are classes: `Pmm.Allocator`, `Vmm.Manager`,
`Vma.Heap`, `Boot.BootInfo`, `Acpi.Tables`. Two ghost fields carry the main arguments: `Vmm.Manager.tab` gives the table
page at each path of indices from the root, and `Vma.Heap.blocks` is the block list that the headers spell out.

The three layers rest on each other. A new table comes from a page that was free, so it is no table yet, and the walks of
all other addresses stay as they were. The heap's pages are held pages distinct from each other and from the tables, and
there are fewer of them than the allocator has, which is the only reason why the heap stays below its limit.

The page-table code runs in every state of the allocator, also where it goes wrong: `vmm_map_table` follows whatever
address it reads from an entry. `Vmm.Pointer` is the pointer it has at each step and `Vmm.Stored` the write at the end; a
pointer to where there is no memory reads all ones there, and what it writes is lost. The ghost field
`Vmm.Manager.faithful` says that every call so far has mapped its page and changed nothing else, so a contract about a
whole loop, like that of `Vmm.Manager.Init`, can say exactly when all calls do.

After the switch of address space the code goes on reaching tables and fresh pages at their physical addresses.
`Vmm.Manager.InPlace` says that these addresses mean themselves. It is part of what the heap requires and keeps
(`Vma.Heap.Space`), because the heap maps its pages after the switch.

## Where the code does not do what it is for

* The second mapping loop of `vmm_init` runs to 4 GiB instead of 2 GiB. Its addresses wrap round and it maps 0..2 GiB to
  2..4 GiB, over the identity map of the first loop (`BootMap.BootTranslation`). The identity map holds exactly if the
  loop stops after 2 GiB (`BootMap.IdentityExactlyIfStopped`), and exactly then the allocator's pages are in place after
  the switch; as the code has it, every table is displaced by 2 GiB (`Vmm.Manager.InPlaceExactlyIfStopped`,
  `System.BootTables`). What is proved of the heap over its page tables therefore holds for a kernel whose loop stops
  after 2 GiB (`System.Start`), and not for the loop as written. With the loop as written there is no heap: whatever the
  code writes through table pointers, from then on, no table is reached, so no address of the heap is ever mapped
  (`Vmm.TablesOutOfReach`, `System.BootedWithoutHeap`).
* `vmm_map_table` goes on at physical page 0 when a table is missing and no page is free, and takes the first 4 KiB of a
  2 MiB page for a page table. It maps its page exactly if there are pages for the missing tables and no 2 MiB page is in
  the way (`Vmm.Manager.MapTable`, `Vmm.OnlyMappable`); what it does otherwise is shown by `Vmm.MissingLeadsToZero`,
  `Vmm.HugePageTakenForTable`, `Vmm.MapWithoutPages` and `Vmm.Manager.BootPageBlocked`. All calls of `vmm_init` map their
  pages exactly with no free page, with 9, or with at least 13 (`Vmm.Manager.Init`).
* A growth of the heap that takes a page and then finds none for its table writes the entry to physical page 0. Since
  the heap has its tables up to the last one, that is all the harm (`Vma.Heap.OnlyLastTable`): the page is lost, and the
  next call finds the allocator empty and null is returned with the heap intact. Only when this happens on the last page
  of the growth does the code go on with a heap whose last page is not mapped; `Vma.Heap.Malloc` leaves the heap intact
  exactly otherwise. A heap of 2 MiB with one free page is such a case (`Vma.LastPageUnmapped`).
* A heap request within 4119 bytes of 2^64 counts too few pages (`Vma.GrowthSufficesExactly`, `Vma.GrowthOverflows`).
* Freeing a region rounds outwards, so a page is taken in part unless both ends are aligned
  (`Pmm.RegionWithinExactlyIfAligned`, `Pmm.RegionOverreaches`).
* The range test for the bitmap's place is computed in 64 bits: an entry whose end wraps round passes it
  (`Pmm.CandidateEndsBelowLimitExactly`, `Pmm.WrappedCandidate`).
* The memory map reader counts entries of 24 bytes and steps by the tag's entry size (`Boot.EntryCountExactly`).
* The formatter returns the count of characters written, where section 7.21.6.12 of C11 asks for the count that would have
  been written; `%%` prints nothing; and a format that ends in `%l` or `%ll` is read past its end
  (`Kstdio.WellFormedExactly`).

## Model

| member | source | states |
|---|---|---|
| Pmm.FreeBit | kernel/src/pmm.c:72-117 | a page is free if and only if it is below the count and bit i % 8 of byte i / 8, from the lowest up, is clear |
| Pmm.RegionExactly | kernel/src/pmm.c:84-85 | the pages of a region, with the end rounded up in 64 bits |
| Pmm.RegionMeets | kernel/src/pmm.c:72-92 | without overflow, the pages of a region are those that meet its bytes |
| Pmm.RegionWithinExactlyIfAligned | kernel/src/pmm.c:83-91 | a region takes only whole pages of its own if and only if both ends are page-aligned |
| Pmm.RegionOverreaches | kernel/src/pmm.c:83-91 | a region from the middle of a page takes the whole page |
| Pmm.CandidateExactly | kernel/src/pmm.c:25 | which entries the scan admits, over their fields: from 1 MiB on, up to 1 GiB in 64 bits, not empty |
| Pmm.CandidateEndsBelowLimitExactly | kernel/src/pmm.c:25 | an admitted entry ends below 1 GiB if and only if its end does not overflow |
| Pmm.WrappedCandidate | kernel/src/pmm.c:25 | an entry whose end wraps round is admitted |
| Pmm.Allocator.FindSpot | kernel/src/pmm.c:19-35 | the scan yields the first longest of the entries that Pmm.CandidateExactly admits and the highest end of any of them; it yields none exactly when none is admitted |
| Pmm.Allocator.Init | kernel/src/pmm.c:12-70 | exactly when each result is returned; a usable entry of 32 KiB from 1 MiB on and below 1 GiB suffices; the bitmap starts at a usable entry from 1 MiB on and fits in it; afterwards page i is free if and only if 0 < i < page_count, i meets a usable entry above 1 MiB and i is no bitmap page, all over the fields of the entries; padding bits are set |
| Pmm.Allocator.LockRegion | kernel/src/pmm.c:72-81 | exactly the pages of the region stop being free; padding stays set |
| Pmm.Allocator.FreeRegion | kernel/src/pmm.c:83-92 | exactly the pages of the region below page_count become free; padding stays set |
| Pmm.Allocator.AllocPage | kernel/src/pmm.c:94-110 | the least free page is returned and only it stops being free; null when none is free |
| Pmm.Allocator.FreePage | kernel/src/pmm.c:112-117 | only the given page becomes free; null and pages beyond the count change nothing |
| PageRuns.RunsConserve | kernel/src/pmm.c:94-117 | over every run of allocations and frees of held pages, as steps on the set of free pages, free and held pages stay disjoint and their union constant |
| PageRuns.RunAll | kernel/src/pmm.c:94-117 | any such run of calls on the allocator as it is after its initialisation keeps in step with the sets, and no page handed out is page 0, a page of the bitmap or outside the usable entries |
| PageRuns.GrantsRise | kernel/src/pmm.c:94-110 | taking the least page over and over yields strictly rising pages until none is left |
| PageRuns.AllocMany | kernel/src/pmm.c:94-110 | calls of the allocator without frees hand out strictly rising pages until none is left |
| PageRuns.AllocThenFree | kernel/src/pmm.c:94-117 | freeing the page just allocated restores the free pages |
| PageTables.PathsSplitPages | kernel/src/vmm.c:66-69 | the four indices of two addresses agree exactly on the same 4 KiB page, the first three exactly on the same 2 MiB page |
| PageTables.IndicesSpell | kernel/src/vmm.c:66-69 | the four indices and the offset spell out the low 48 bits of the address, highest first |
| PageTables.WalkFollowsTree | kernel/src/vmm.c:71-93 | the processor's walk goes through the tables of the tree |
| PageTables.AddTable | kernel/src/vmm.c:15-22 | linking a fresh zeroed page keeps the tree and changes no walk at all |
| PageTables.WriteLeaf | kernel/src/vmm.c:95-129 | writing a page entry changes exactly the walks through that entry and keeps the tree |
| PageTables.MissingCounts | kernel/src/vmm.c:74-93 | a call adds exactly the tables missing on its path |
| Entries.Masks | kernel/src/vmm.c:75-79 | the masks of the code read bit 0, bit 7 and bits 12 to 51 of an entry |
| Entries.TableEntryPoints | kernel/src/vmm.c:21 | the entry made for a table points to it and is no 2 MiB page |
| Entries.AlignedHugeEntry | kernel/src/vmm.c:129 | on an aligned address the flags of a 2 MiB entry fall into free bits |
| Entries.PageEntryBits | kernel/src/vmm.c:96 | the bits of a page entry are those of the address and the flags, and bit 0 |
| Entries.TableEntryBits | kernel/src/vmm.c:21 | the bits of a table entry are those of the address, and bits 0 and 1 |
| Entries.HugeEntryBits | kernel/src/vmm.c:129 | the bits of a 2 MiB entry are bits 21 to 51 of the address, those of the flags, and bits 0 and 7 |
| Vmm.PointerInTree | kernel/src/vmm.c:71-93 | as far as the tree goes, the pointers of the code are its tables |
| Vmm.WriteElsewhere | kernel/src/vmm.c:95-129 | a write to a page that is no table keeps the tree and changes no walk |
| Vmm.OnlyMappable | kernel/src/vmm.c:63-129 | whatever a call does to memory, it cannot map its page alone, with tables from the free pages, without pages for the missing tables or inside a 2 MiB page |
| Vmm.MissingLeadsToZero | kernel/src/vmm.c:15-22 | with a table missing and no page left, the pointer goes on at physical page 0, which is no table |
| Vmm.HugePageTakenForTable | kernel/src/vmm.c:89-93 | inside a 2 MiB page the pointer goes on at that page |
| Vmm.MapWithoutPages | kernel/src/vmm.c:15-22 | an input: with an empty allocator the entry for an address is written to physical page 0 |
| Vmm.Manager.BootPageBlocked | kernel/src/vmm.c:89-95 | an input: after vmm_init, mapping address 0 would write into the 2 MiB page at 2 GiB |
| Vmm.Manager.AllocEntry | kernel/src/vmm.c:15-22 | a new table is a page that was free, all walks stay the same; with no free page nothing changes |
| Vmm.Manager.NextTable | kernel/src/vmm.c:74-79 | one level down in every case: a missing table is created if there is a page and no walk changes; the pointer is then the address in the entry |
| Vmm.Manager.MapTable | kernel/src/vmm.c:63-102 | if and only if there are pages for the missing tables and no 2 MiB page is in the way, the walk of the page ends in phys, flags and present, every other walk is unchanged, the tables stay a tree of held pages, and exactly the missing tables are taken; else the entry goes where the pointers lead, and if that is no table the tree and all walks stay as they were |
| Vmm.Manager.MapTableHuge | kernel/src/vmm.c:104-135 | the same for 2 MiB pages, also where a table was before |
| MapRuns.MapAll | kernel/src/vmm.c:63-135 | from any tables, all calls of a run take place if and only if there are pages for all tables missing on the way; then each address walks to its last mapping, and every table is a held page that was free or a table before |
| BootMap.BootTranslation | kernel/src/vmm.c:37-42 | the exact translation of every address after both loops |
| BootMap.StoppedBootTranslation | kernel/src/vmm.c:37-42 | with the second loop stopped after 2 GiB: identity below 4 GiB and the kernel's 2 GiB |
| BootMap.IdentityExactlyIfStopped | kernel/src/vmm.c:37-42 | the identity map below 4 GiB holds if and only if the second loop stops after 2 GiB |
| BootMap.StackTranslation | kernel/src/vmm.c:44-50 | byte o of page i of the stack, 0xFFFFFC0000000000 + 4096 * i + o, is byte o of the i-th page taken |
| BootMap.BootTablesCount | kernel/src/vmm.c:37-42 | the loops need nine tables, or fewer if the second one stops early |
| Vmm.Manager.IdentityLoop | kernel/src/vmm.c:37-39 | all calls map if and only if five pages are free; then the view, exactly the six tables, and the pages they cost |
| Vmm.Manager.KernelLoop | kernel/src/vmm.c:40-42 | all calls map if and only if there are pages for the tables; then the view with 64-bit wrap-around, for any stop |
| Vmm.Manager.StackLoop | kernel/src/vmm.c:44-50 | nine stack pages, distinct, held and no tables, mapped in order; it succeeds exactly with 12 free pages, and its calls map unless there are one to three |
| Vmm.Manager.Init | kernel/src/vmm.c:24-61 | it succeeds if and only if there are pages for the tables and 12 more, 21 as the code has it; then every address walks as both loops and the stack say, with exactly those tables, from pages that were free; all calls map if and only if there is no page, as many as tables, or at least four more |
| Vmm.Manager.InPlaceExactlyIfStopped | kernel/src/vmm.c:40-79 | after the switch the allocator's pages mean themselves if and only if the second loop stops after 2 GiB, and the tables do if and only if they lie above what the loop ran over; as it is, every table is displaced |
| Vmm.TablesOutOfReach | kernel/src/vmm.c:40-101 | in the address space that the loop as written leaves, no sequence of writes through pointers of the lower half reaches a table: the tree and all walks stay |
| Blocks.CanonicalUnique | kernel/src/vma.c:42-104 | the live blocks and the bounds determine the whole block list |
| Blocks.PlaceCanonical | kernel/src/vma.c:43-56 | taking a block keeps the list canonical and adds one live block; the block is split exactly if it is more than 32 bytes larger, then to the size asked for and with a free rest of more than 8 bytes, else it is taken whole |
| Blocks.ExtendCanonical | kernel/src/vma.c:69-81 | growing keeps the list canonical and the live blocks, and ends in a free block |
| Blocks.GrownFits | kernel/src/vma.c:58-81 | the test after a growth succeeds, and at the last block |
| Blocks.CoalesceCanonical | kernel/src/vma.c:96-104 | one merging pass makes any tiling canonical and keeps its live blocks |
| Blocks.ReleaseCanonical | kernel/src/vma.c:93-104 | a free leaves the canonical list of the other live blocks |
| Blocks.ServeFacts | kernel/src/vma.c:35-88 | what a request does to the list, with pages for a growth or without: canonical before and after, null exactly when nothing fits and nothing grows, at least the size asked for |
| Blocks.ReleaseUndoesServe | kernel/src/vma.c:35-105 | freeing what was just allocated restores the list, or after a growth the list extended by exactly the new pages |
| Blocks.ReleaseOrder | kernel/src/vma.c:90-105 | freeing the same live blocks in any order gives the same list |
| Vma.RoundUpMask | kernel/src/vma.c:38 | the rounding is the masked sum of the code |
| Vma.GrowthSufficesExactly | kernel/src/vma.c:38-60 | the page count covers the request if and only if the request is at most 2^64 - 4120 |
| Vma.GrowthOverflows | kernel/src/vma.c:38-60 | requests above that for which no page or one page is counted |
| Vma.CallocGuardExactly | kernel/src/vma.c:108 | the overflow test passes exactly the products up to SIZE_MAX |
| Vma.DemandMet | kernel/src/vma.c:62-67 | with as many free pages as a growth needs for its pages and tables, every call maps, and exactly the rest is left |
| Vma.DemandBounds | kernel/src/vma.c:62-67 | a growth needs at least its pages and at most four times as many |
| Vma.InitDemand | kernel/src/vma.c:18-23 | the first heap needs four pages and the missing tables of its first page |
| Vma.BootDemand | kernel/src/vma.c:18-23 | after vmm_init the first heap needs exactly seven pages |
| Vma.LastPageUnmapped | kernel/src/vma.c:62-74 | an input: with a heap of 2 MiB and one free page, a growth by one page comes to its end without its table |
| Vma.BootLeavesRange | kernel/src/vmm.c:37-50 | the address space of vmm_init leaves the heap's range unmapped |
| Vma.PayloadsUntouched | kernel/src/vma.c:44-104 | what safe writes of headers mean: no header that covers a byte of a live payload changes |
| Vma.Heap.OnlyLastTable | kernel/src/vma.c:62-67 | once the heap has a page, only the last table can be missing for the next one; then that address is not mapped, and without a page the pointer of the code is 0, which is no table |
| Vma.Heap.MapPages | kernel/src/vma.c:62-67 | a growth comes to its end if and only if there are pages for it and its tables, or only its last page lacks its table, which is then not mapped; fresh held pages are mapped one after the other, all calls map exactly if no page lacks its table, and a heap that has pages stays intact in every case, with exactly what is left of pages and tables |
| Vma.Heap.Init | kernel/src/vma.c:17-33 | it succeeds if and only if there are pages for the heap and the missing tables; then one free block over four mapped pages that were free |
| Vma.Heap.Grow | kernel/src/vma.c:58-81 | if the growth comes to its end the list is extended by the pages counted, else it is unchanged; the heap is intact afterwards if and only if it is not the last page that lacks its table |
| Vma.Heap.Malloc | kernel/src/vma.c:35-88 | first fit with at most one growth, as Blocks.Serve says; null exactly for size 0, or when no block fits and the growth does not come to its end; the heap is intact afterwards if and only if no growth ended with its last page unmapped; no header is written over a live payload; page tables change only in a growth |
| Vma.Heap.Free | kernel/src/vma.c:90-105 | the block is released as Blocks.Release says; no header is written over another live payload |
| Vma.Heap.MergeAll | kernel/src/vma.c:96-104 | the loop over the linked headers is the merging pass |
| Vma.Heap.Calloc | kernel/src/vma.c:107-113 | refuses products above SIZE_MAX, else allocates as malloc does; every byte from ptr to ptr + count * size is then 0 and every other byte is as it was |
| Vma.Heap.BelowLimit | kernel/include/xddos/vma.h:8-10 | the heap is at most 4096 * page_count, at most 1 GiB, below HEAP_LIMIT |
| Vma.Heap.Backed | kernel/src/vma.c:62-74 | with the allocator's pages in place, every heap byte is mapped to a held page that is neither free nor a table |
| Vma.Heap.TornExactly | kernel/src/vma.c:62-74 | of a heap that grew without its last table, exactly the last page is not mapped |
| Vma.Heap.BytesApart | kernel/src/vma.c:62-74 | with the allocator's pages in place, distinct heap bytes are distinct bytes of memory |
| HeapRuns.RunsKeepInv | kernel/src/vma.c:35-105 | every run of allocations and valid frees, failed growths included, keeps the heap canonical and its live blocks those of the callers |
| HeapRuns.RunAll | kernel/src/vma.c:35-105 | every run of calls on the heap over its page tables and allocator, up to a growth that ends with its last page unmapped, is such a run and leaves the heap intact and live allocations aligned, inside the heap and apart; all its calls map exactly if no page lacked its table |
| HeapRuns.AllocationsSound | kernel/src/vma.c:35-105 | after every run live allocations are 8-aligned, inside the heap, as large as asked for and pairwise disjoint |
| HeapRuns.HistoryIndependent | kernel/src/vma.c:35-105 | runs that end with the same live blocks and heap end have the same block list |
| Memory.MergedWord | libc/src/string.c:58-100 | in each of the three shift cases the merge of two aligned words is the unaligned word between them |
| Memory.Memcpy | libc/src/string.c:13-147 | for every length, alignment and pair of disjoint ranges each target byte is the source byte at its place, and no other byte changes; words are accessed only at aligned addresses |
| Memory.CopyMerging | libc/src/string.c:50-104 | the long stretch keeps the carried word equal to the source bytes around the cursor |
| Memory.Memset | libc/src/string.c:149-206 | exactly the n target bytes get the low byte of c, for every length and alignment |
| Memory.Memmove | libc/src/string.c:208-223 | each target byte is the byte that the source had at its place, for every overlap, and no other byte changes |
| Kstdio.DigitCharExactly | kernel/src/kstdio.c:25 | digits below 10 are '0' to '9' in order, the others 'A' onwards |
| Kstdio.ParseExactly | kernel/src/kstdio.c:22-26 | what a numeral denotes, by its last digit |
| Kstdio.PrintedInverse | kernel/src/kstdio.c:12-38 | parsing what itoa prints gives the word back, signed ones as two's complement including the least |
| Kstdio.DigitsShape | kernel/src/kstdio.c:22-27 | no leading zero, and every character is one of '0' to '9' or, above base 10, one of the base - 10 letters from 'A' on |
| Kstdio.PrintedFits | kernel/src/kstdio.c:12-38 | at most 21 bytes with the terminator in base 10 and 16 |
| Kstdio.PutDigits | kernel/src/kstdio.c:22-26 | the digit loop leaves the numeral reversed |
| Kstdio.ReverseInPlace | kernel/src/kstdio.c:29-37 | the swap loop reverses the range and nothing else |
| Kstdio.Itoa | kernel/src/kstdio.c:12-38 | the buffer starts with the text and its terminator, the rest is unchanged |
| Kstdio.Vsnprintf | kernel/src/kstdio.c:51-126 | with length the length of the whole output, exactly its first k = min(size - 1, length) characters are written and then the terminator; the count returned is the int congruent to k, k itself below 2^31 |
| Kstdio.NumberConversions | kernel/src/kstdio.c:88-104 | `%x` and `%u` take a word of 32 bits, with `l` or `ll` of 64 bits, and print its numeral in base 16 or 10: only digits, no leading zero, and the word back when parsed |
| Kstdio.SignedConversions | kernel/src/kstdio.c:79-87 | `%d` takes a signed number of 32 bits, with `l` or `ll` of 64 bits, and prints its numeral, after a minus sign if it is negative, the least one included |
| Kstdio.StringConversions | kernel/src/kstdio.c:75-78 | `%s` prints its text, and nothing for a null string |
| Kstdio.OtherConversions | kernel/src/kstdio.c:72-116 | `%%` and every other letter print nothing and take no argument |
| Kstdio.ConversionThenRest | kernel/src/kstdio.c:59-117 | a conversion prints in any format what it prints alone, and the rest goes on with the other arguments |
| Kstdio.LiteralThenRest | kernel/src/kstdio.c:117-121 | every other character stands for itself |
| Kstdio.FormatShape | kernel/src/kstdio.c:59-70 | every format is a list of literal characters and conversions followed by one of four tails: nothing, a lone `%`, `%l` or `%ll` |
| Kstdio.WellFormedExactly | kernel/src/kstdio.c:59-117 | a format is read within its bounds and its arguments if and only if its tail is not `%l` or `%ll` and the arguments fit its conversions; the output is then the meaning of the directives one after the other, then the tail |
| Wire.LittleEndian | kernel/src/boot.c:26 | words of memory have their lowest byte first |
| Boot.TagLayout | kernel/src/boot.c:33-50 | the serialised form of a tag: a multiple of 8 in length, as short as holds it, with type, size and body in their places |
| Boot.MapLayout | kernel/src/boot.c:50-71 | the serialised form of a memory map: entry size first, and the fields of entry i at 8 + size * i of the body |
| Boot.UsableOne | kernel/src/boot.c:60-69 | an entry counts if and only if its type is 1 and it starts at 0x1000 or above |
| Boot.LastMap | kernel/src/boot.c:46-77 | there is a map exactly if some tag is one; the first 256 usable entries of the last such tag count |
| Boot.RsdpExactly | kernel/src/boot.c:94-100 | the 36 bytes of the last root pointer count |
| Boot.BootInfo.Walk | kernel/src/boot.c:25-115 | on the serialised form of any proper tag list the walk visits exactly the tags: the first at offset 8, each next one and the end tag at the least multiple of 8 not below the end of the tag before, with the end tag in the last 8 bytes; the last map and root pointer count |
| Boot.BootInfo.ReadMap | kernel/src/boot.c:46-77 | for entries of any size that are counted right, the table is the first 256 available entries that start at 0x1000 or above, in order, despite the decrement at zero |
| Boot.EntryCountExactly | kernel/src/boot.c:51-71 | the count of entries is right if and only if the excess of their size adds up to less than one entry |
| System.FirmwareFreeExactly | kernel/src/pmm.c:58-63 | a page is the firmware's to give if and only if it meets an entry of type 1 of some memory map that starts above 1 MiB |
| System.BootPages | kernel/src/boot.c:121-123 | the free pages after boot are those of the memory map read, and each meets an available entry of the firmware |
| System.BootedWithoutHeap | kernel/src/vma.c:17-29 | with the loop as written, whatever is written through table pointers after the switch, every address of the heap stays unmapped |
| System.BootTables | kernel/src/vmm.c:24-61 | from boot information to page tables: they are built exactly with pages enough, the heap's range is empty, and the allocator's pages are in place after the switch if and only if the second loop stops after 2 GiB; as it is, there is never a heap |
| System.Start | kernel/src/vma.c:17-33 | with the loop stopped, from boot information to the first heap: exactly with pages enough, and every byte of the heap is mapped, at its offset, into a page of an available firmware entry that is no table and not free |
| Acpi.MadtLayout | kernel/src/acpi.c:47-60 | the serialised form of each kind of entry, byte for byte |
| Acpi.Tables.WalkMadt | kernel/src/acpi.c:39-64 | an IRQ below 16 that no entry overrides keeps its number, else it gets the line of the last entry that overrides it; the last I/O APIC entry is found, and without one nothing is |
| Acpi.IsMadtExactly | kernel/src/acpi.c:34 | the signature is the four characters APIC |
| Acpi.FindMadt | kernel/src/acpi.c:28-36 | the last table with the signature, or none |

## Left out

- Vma.Heap.Malloc: requires a request of at most 2^64 - 4120 bytes; above that the code counts too few pages (Vma.GrowthSufficesExactly) and goes on with an unmapped header or with growth after growth.
- HeapRuns.RunAll: a run ends before a growth whose last page lacks its table; Vma.Heap.Malloc says what that call leaves, and the processor faults when the page is touched.
- Vmm.Manager.MapTable: what a stray pointer does after it has left the tables is modelled only with the allocator empty or for one call; the bitmap is not part of the memory it could hit, and a fault is not modelled.
- MapRuns.MapAll: requires that no 4 KiB page is mapped inside a 2 MiB page, where one call already loses the tables.
- Vma.Heap.Space: requires the allocator's pages in place after the switch, which vmm_init as written rules out (Vmm.Manager.InPlaceExactlyIfStopped).
- Kstdio.Vsnprintf: requires a format that is read within its bounds (Kstdio.WellFormedExactly) and a buffer with room for what is written; arguments are a typed list in place of varargs.
- Vma.Heap.Calloc: payload bytes are a map of their own beside the headers; what user code leaves in freed memory is not modelled.
- Acpi.FindMadt: the checks of acpi_init before the search, one error code each, are not modelled.
- Boot.BootInfo.Walk: the framebuffer tag and log messages are not modelled; malformed information is excluded, and maps with larger entries that the code miscounts (Boot.EntryCountExactly).
- Interrupts, descriptor tables, port and model-specific register access, TLB flushes and the stack switch are not part of this model.
- libc/src/stdio.c repeats the formatter of the kernel and is not modelled a second time.
- strlen, strncmp and memcmp would add only easy members.
- The font reader and the drawing code are not part of this model.
