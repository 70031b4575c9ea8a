# The kernel's stateful cores, modelled and proved

A Dafny 4.11 model of four parts of the levos kernel, with proofs of what they keep over
unbounded runs. `dafny verify dfyconfig.toml` checks everything. Each part has value-level
specifications with their theorems, and classes that do what the C code does, in place and step by
step, proved against those specifications.

**The heap** (`mm/heap.c`, serving section 7.20.3 of ISO C99). `Heap` works on a flat byte memory,
in which majors and minors are 24-byte headers linked by addresses; a ghost layout (regions, each
with a sequence of blocks) says what those bytes mean. `Memory` holds words and headers,
`HeapLayout` and `HeapSearch` the layout, its accounting and first fit, `HeapHeaders`, `HeapRelink`
and `HeapFrames` the representation and what writes do to it, `HeapOutcome` and `HeapFree` the
contracts of malloc and free, `HeapBet` the best bet, `HeapContents` and `HeapWrites` what callers
see, `HeapRelease` what giving pages back does to memory, `HeapClass` the operations, `HeapRuns` the
theorems over runs, and `HeapSupply` heap and page supplier together.

**Frames and page tables** (`mm/frame.c`, `mm/page.c`). `WordBits` and `Frames` tie the packed
bitmap to a set of frames; `FrameModel` is frame ownership as a transition system; `Paging` and
`PagingClass` are tables, directories, `mm_alloc_pages` and `paging_fini`; `FrameBoot` is what holds
from then on; `AddressSpaces` is the running system with its process directories ("32-bit paging",
section 4.3 of Intel SDM Volume 3A).

**The scheduler and context frames** (`kernel/sched.c`, `arch/x86/sched.c`,
`include/levos/x86.h`). `SchedModel` is the transition system, `SchedRuns` safety and bounded
waiting and time slices over its runs, `SchedClass` the queue of thread pointers updated in place.
`ContextSwitch` is a register file on word memory with the interrupt frame saved, rebuilt and popped.

**The ext2 read path** (`fs/ext2/*`, `lib/string.c`). `Tokens` and `Strtok` are the tokenizer
(section 7.21.5.8 of ISO C99) and its static cursor; `Ext2Disk` says what is on a disk (blocks,
inodes, directories, paths, file bytes), `Ext2Format` ties that to the structures written down as
bytes, and `Ext2Class` reads it through buffers.

Main results, hardest first: isolation of blocks over every run of the heap; first fit with the
best-bet restart refined by the header-level loop, which asks for pages only when no gap fits; free
undoing malloc through the hidden alignment byte; realloc keeping contents; when giving pages back
does harm, by an exact condition; frame ownership and address-space agreement in every state;
user mode confined to the VGA pages; bounded waiting of every queued thread and whole time slices;
the exact context round trip over any number of switches; file reads equal to the blocks an inode
names, laid end to end, under their exact condition; and path resolution equal to a fold of lookups.
`HeapRuns.Boot`, `HeapSupply.Boot`, `AddressSpaces.Boot`, `AddressSpaces.BootAndAllocate`,
`SchedClass.BootAndTick` and `Ext2Class.OpenAndRead` go from boot or mount to a later step through
the contracts alone.

Free has a fault that these results account for: when it empties a major it also gives the pages back,
and doing so panics or cuts words in memory below the major. `Harmless` says, of the words there before
the call, when this does no harm; a free that empties no major always qualifies. A free leaves the heap
in order if and only if it is harmless (`HarmlessExactly`, `Heap.Free`), and so do the frees inside
realloc. The theorems over runs are about runs of harmless frees; where no free empties a major they
need no condition (`RunKeepsAlways`).

Where the code differs from what its comments or its C-library counterparts promise, the model
follows the code:

- `liballoc_free` hands the start of a major to `mm_free_pages`, which walks downwards from there and
  treats each address, 4096 apart, as that of a page entry. So a free that empties a major panics at
  the first such word below 0x1000, or else clears the upper 20 bits of words that lie below the
  major and the bits of the frames they name (`GiveBackIs`). With another major among these pages it
  never ends well (`NeverQuietAbove`, `SecondMajorHarms`). The pages of the major itself stay mapped.
- `mm_alloc_pages` has no failure that malloc would see: a failed search becomes the address
  0xFFFFF000, which is not NULL, and a header is written there (`FailureIsNoRun`, `MallocOn`).
- `l_bestBet` is described as the major with the most free memory. It is the freest of those a scan
  happened to look at, measured before the block was taken (`MallocBet`), so it need not be the freest
  (`MallocFromBet`), nor exist (`LeavesBet`, `FullMajorLeavesNone`).
- `new_realloc` does not handle a failing malloc: it copies to address 0. `Heap.Move` says exactly
  what then happens.
- CASE 4.1 of `new_malloc` alone does not clear the memory it returns.
- A request of 2^32 - 32 bytes wraps around to a size of 0, and malloc serves it as one of 1 byte
  (`MallocWraps`).
- `set_nframes` clears nframes / 32 bytes of a bitmap of nframes / 4 bytes (`Bitmap.constructor`).
- `first_n_frames` may return a run that hangs over `nframes` (`RunInside`, `Overhang`).
- `mm_alloc_pages` does not look whether a page of its run already has a frame, and a frame it maps
  over would stay marked for good (`PagesGood`, `LeaksExactly`). It is saved by what `paging_fini`
  leaves: from there on it never happens (`NeverLeaks`).
- `free_frame` leaves the entry present, so the page then translates to frame 0.
- A copied directory keeps the kernel's `phy_addr`: the hardware walks the kernel's physical
  directory whichever process runs (`Spaces.Switch`).
- `strtok` ignores a new string while a scan is pending, and a failed path lookup leaves one pending
  (`StaleScan`, `AfterFailure`, `IdleOnly`).
- A directory entry matches every name it is a prefix of (`ExactWhenNoPrefix`, `PrefixHides`,
  `FindExact`). A null block pointer of a directory is followed to block 0, and an entry with inode 0,
  which marks an unused record on disk, counts as present.
- `ext2_file_read_block` indexes the indirect block with a variable that shadows the block number
  and is not initialised. What it holds is a parameter of the model (`stray`); `RightBlock` and
  `RightReads` say exactly which blocks and which reads do not depend on it.
- `ext2_read_file` fetches `count / bs + 1` blocks, too few for some unaligned reads (`FitsExactly`).

## Model

| member | source | states |
|---|---|---|
| `HeapLayout.AlignBounds` | mm/heap.c:79-92 | the pointer ALIGN makes is 16-byte aligned, at least 16 and less than 32 bytes behind the header, so adding 32 to the request always leaves room for it |
| `HeapLayout.GapsTotal` | mm/heap.c:408-436 | the gaps of a major, each measured between neighbouring minors, add up to exactly size - usage |
| `HeapLayout.NoGapBeyondFree` | mm/heap.c:408-436 | hence CASE 1 may reject a major on its free total alone: no single gap exceeds it |
| `HeapSearch.FitIsLowest` | mm/heap.c:478-603 | a gap is found inside a major exactly when some gap is big enough, and it is the lowest such gap |
| `HeapSearch.SearchComplete` | mm/heap.c:377-635 | the scan (best bet first, then once from the root) finds no major exactly when no gap of any major fits, wherever it started |
| `HeapSearch.PlaceValid` | mm/heap.c:442-599 | taking a fitting gap keeps all regions well formed and disjoint and adds the size to the in-use total, nothing to the allocated one |
| `HeapSearch.AppendValid` | mm/heap.c:249-299 | a fresh run of pages is a valid, disjoint, empty region behind the others, and its pages are added to the allocated total |
| `HeapSearch.ReleaseTotals` | mm/heap.c:740-763 | releasing a block subtracts its size from the in-use total, and its major from the allocated total exactly when it was the last block in it |
| `HeapSearch.ReleaseValid` | mm/heap.c:737-773 | releasing a block keeps the layout valid and leaves no empty major |
| `HeapSearch.ReleaseUndoesMalloc` | mm/heap.c:442-635 | releasing the block malloc just placed gives back the very same majors, minors and gaps, dropping the major malloc had to obtain |
| `HeapHeaders.Isolated` | mm/heap.c:121-144 | a block, header included, overlaps no other block and no major's header; its caller's bytes are aligned and lie inside it behind its header |
| `HeapHeaders.PointersDistinct` | mm/heap.c:460-462 | different blocks have different pointers |
| `HeapHeaders.PlaceRep` | mm/heap.c:442-599 | after the header writes of CASE 2 to 4 the doubly linked lists in memory describe the layout with the new block in its gap |
| `HeapRelink.RemoveRep` | mm/heap.c:742-748 | after the unlinking writes of free the lists in memory describe the layout without the block |
| `HeapRelink.DropRep` | mm/heap.c:757-760 | after the unlinking of an empty major the list of majors in memory describes the layout without it, whichever neighbours it had |
| `HeapRelink.AppendRep` | mm/heap.c:430-433 | after a new major is linked behind the last one the list in memory describes the longer layout |
| `HeapFree.HiddenByteLeadsBack` | mm/heap.c:95-103 | UNALIGN undoes ALIGN: through the hidden byte the pointer leads back to the first byte after the header |
| `HeapFree.LiveHeader` | mm/heap.c:677-738 | for a live pointer, the header free finds through UNALIGN is the block's own: magic, owner, sizes and neighbours |
| `HeapFree.BlockClear` | mm/heap.c:118-144 | the bytes of a live block overlap no header of any major or minor and no hidden byte |
| `HeapFree.FreedIsAlien` | mm/heap.c:743 | once freed, a pointer is no longer taken for a block |
| `HeapRelease.GiveBackIs` | mm/frame.c:85-91 | the pages are given back if and only if every word met, 4096 bytes apart below the major, can be freed; then the bytes are those in closed form |
| `HeapRelease.GiveBackWords` | mm/page.c:60-67 | in words: exactly when each is in a present page and at least 0x1000, and then exactly the upper 20 bits of each are gone, and these name the frames |
| `HeapRelease.OnlySame` | mm/heap.c:661-895 | memory represents a layout and shows the callers' bytes in one way only: the bytes of headers, hidden bytes and blocks |
| `HeapRelease.QuietBefore` | mm/heap.c:737-763 | whether the release is quiet can be read off the words in memory before the free |
| `HeapRelease.HarmlessFree` | mm/heap.c:737-763 | a harmless free goes on, removes its block, and changes no byte of another block |
| `HeapRelease.HarmlessExactly` | mm/heap.c:737-763 | the kernel goes on with the lists in order and every other caller's bytes as they were if and only if the free is harmless |
| `HeapRelease.NeverQuietAbove` | mm/heap.c:763 | no free that empties a major is harmless while another major starts within the pages walked over |
| `HeapRelease.SecondMajorHarms` | mm/heap.c:763 | two majors, the second right behind the first and with one block: freeing that block panics or cuts a word of the block in the first |
| `HeapRelease.OnlyMajorQuiet` | mm/heap.c:763 | with no other major left, the free is harmless exactly when every word met is heavy enough |
| `HeapOutcome.ScanStep` | mm/heap.c:392-436 | each step of the loop over the majors, with its one restart from the root, keeps the scan on the way to the target major |
| `HeapOutcome.RunCoversRequest` | mm/heap.c:249-271 | with every sum taken modulo 2^32 as the code does, the pages requested cover the request if and only if the request is below the guard RequestFits |
| `HeapBet.ScanPlaces` | mm/heap.c:378-392 | a request goes to the best bet if that has more memory than needed and a gap; to the first major with a gap if there is no best bet or it has no more than needed |
| `HeapBet.TrackStep` | mm/heap.c:392-436 | one look of the loop at a major keeps the best bet the earliest freest one of those looked at, on every way the loop goes on |
| `HeapBet.FreestUnique` | mm/heap.c:397-402 | there is only one such best bet |
| `HeapBet.ServesStays` | mm/heap.c:378-402 | a best bet that serves the request stays |
| `HeapBet.LeavesBet` | mm/heap.c:397-433 | a malloc without a best bet that succeeds leaves one, except that it leaves none exactly when it needed a new major while all majors were full to the last byte |
| `HeapBet.FullMajorLeavesNone` | mm/heap.c:408-433 | that exception: one major filled by one block |
| `HeapBet.FreeBetBetter` | mm/heap.c:766-773 | free leaves no best bet with less free memory than the major it took a block from, below 2 GiB |
| `HeapContents.ReleaseRemoves` | mm/heap.c:661-784 | the pointers live after a free are those before without the freed one, all with their blocks unchanged |
| `HeapContents.MallocSees` | mm/heap.c:305-651 | a successful malloc returns a pointer that was not live and adds it, with the requested size, to what callers see; every other block keeps its pointer, size and bytes |
| `HeapContents.FreeUndoesMalloc` | mm/heap.c:305-784 | freeing the pointer malloc just returned, found again through memory alone, restores every major, minor and gap |
| `HeapWrites.ResizeView` | mm/heap.c:880-885 | lowering the recorded request size in place cuts that block and changes no other |
| `HeapWrites.CopyExtends` | mm/heap.c:186-199 | copying one more word or byte extends the copied prefix |
| `HeapClass.Heap.constructor` | mm/heap.c:147-163 | the allocator starts with no major, nothing in use, and satisfies the invariant |
| `HeapClass.Heap.Align` | mm/heap.c:79-92 | rounds the pointer up and leaves the distance in the byte 16 below it |
| `HeapClass.Heap.PlaceEmpty` | mm/heap.c:442-471 | CASE 2: a brand new major gets its first minor, and the pointer is cleared |
| `HeapClass.Heap.PlaceFront` | mm/heap.c:477-508 | CASE 3: room before the first minor is taken and the list relinked |
| `HeapClass.Heap.PlaceTail` | mm/heap.c:521-556 | CASE 4.1: room behind the last minor is taken; behind its header every byte but the hidden one is what memory held before, so nothing is cleared |
| `HeapClass.Heap.PlaceBetween` | mm/heap.c:560-600 | CASE 4.2: room between two minors is taken |
| `HeapClass.Heap.Squeeze` | mm/heap.c:440-603 | inside one major: fails exactly when no gap fits, and otherwise takes the lowest one |
| `HeapClass.Heap.TryMajor` | mm/heap.c:440-603 | the same with all bookkeeping: usage, l_inuse and the lists; failure changes nothing |
| `HeapClass.Heap.AllocateNewPage` | mm/heap.c:249-299 | writes exactly one major header over a fresh run, or counts a warning |
| `HeapClass.Heap.Search` | mm/heap.c:377-635 | the loop over the majors refines first fit from the best bet with one restart; it terminates and asks for pages at most once; afterwards l_bestBet is the earliest major looked at with the most free memory, measured before, unless none has more than the best bet had |
| `HeapClass.Heap.Malloc` | mm/heap.c:305-651 | new_malloc: the new layout is first fit's, NULL, and one more warning, exactly when nothing fits and the supplier has no pages; no live byte changes, memory is cleared except behind the last minor; l_bestBet is exactly what the scan makes it (MallocBet), a new major being looked at when it is the first of all or the last one had memory enough but no gap; invariant kept, lock released |
| `HeapClass.Heap.MallocWraps` | mm/heap.c:305-343 | a request of 2^32 - 32 bytes, whose padded size wraps around to 0, gets a block of 1 byte and a warning |
| `HeapClass.Heap.MallocFromBet` | mm/heap.c:378-403 | a malloc served by the best bet leaves it in place even where another major then has more free memory, so l_bestBet is only a hint |
| `HeapClass.Heap.Unhook` | mm/heap.c:738-750 | takes one minor out of its list, from the front, the middle or the end |
| `HeapClass.Heap.Drop` | mm/heap.c:755-762 | removes an empty major from its list, moves the root, forgets a best bet that names it and lowers l_allocated |
| `HeapClass.Heap.Detach` | mm/heap.c:738-750 | unlinks a minor with all bookkeeping, touching no caller's byte |
| `HeapClass.Heap.Forget` | mm/heap.c:661-784 | new_free without the release of pages: NULL and pointers without the magic are refused and counted, as possible overruns exactly when the low byte of the magic is right; a live block is unlinked, and its major with it when empty, with both totals lowered by exactly that |
| `HeapClass.Heap.Reconsider` | mm/heap.c:766-773 | free moves the best bet to the major it took a block from exactly when that has more free memory, compared as signed 32-bit numbers, and never when there is no best bet |
| `HeapClass.Heap.FreePages` | mm/frame.c:85-91 | mm_free_pages and free_frame on the words it is given: stops at the first word below 0x1000 or in an absent page, else takes the upper 20 bits of each and clears the bits of the frames named there |
| `HeapClass.Heap.Free` | mm/heap.c:661-784 | new_free as a whole: refusals change nothing; for a live block the invariant holds again and callers see exactly the other blocks, bytes included, if and only if the free is harmless, a condition on the words below the major before the call that any free which empties no major meets |
| `HeapClass.Heap.Isolation` | mm/heap.c:305-895 | in every state between operations, what callers see are 16-byte aligned ranges of memory, pairwise disjoint and clear of every header and hidden byte |
| `HeapClass.Heap.Memcpy` | mm/heap.c:179-202 | the word-then-byte copy copies exactly n bytes between disjoint ranges |
| `HeapClass.Heap.Shrink` | mm/heap.c:878-885 | in-place realloc: only the recorded size changes |
| `HeapClass.Heap.Move` | mm/heap.c:889-894 | moving realloc: the old bytes are at the new pointer, and the old block is gone with all else as it was if and only if its free is harmless; when malloc fails, copying to NULL faults, or with nothing to copy frees the old block |
| `HeapClass.Heap.Realloc` | mm/heap.c:806-895 | new_realloc, all branches: the first min(old, new) bytes survive; every other block is untouched and the old pointer dead if and only if the free of the old block, when there is one, is harmless; a move is a malloc, a copy and a free |
| `HeapClass.Heap.MallocThenFree` | mm/heap.c:305-784 | malloc followed by free restores layout, root, l_inuse and l_allocated, and all contents if and only if the free is harmless, which it is when malloc found room in a major |
| `HeapClass.Heap.FreeTwice` | mm/heap.c:685-728 | a second free of the same pointer, the first having been harmless, only counts an error |
| `HeapRuns.StepGood` | mm/heap.c:305-895 | every malloc, free, shrink and caller's write keeps regions and blocks valid, with no empty major (that the lists, totals and best bet in memory agree with them is the invariant of Heap) |
| `HeapRuns.StepKeeps` | mm/heap.c:305-895 | no step, if a free a harmless one, changes size or bytes of a block it does not name |
| `HeapRuns.RunGood` | mm/heap.c:305-895 | regions and blocks are valid in every state of every run of harmless frees; reallocs are runs of these steps |
| `HeapRuns.RunKeeps` | mm/heap.c:305-895 | over every run of harmless frees, moving reallocs included, a block keeps its size and every byte until a step names its pointer |
| `HeapRuns.RunKeepsAlways` | mm/heap.c:305-895 | the same without that condition when no free of the run empties a major |
| `HeapRuns.RunIsolated` | mm/heap.c:305-895 | in every state of every run of harmless frees, every live block is aligned, inside memory and clear of every header and hidden byte, and two different ones are disjoint |
| `HeapRuns.MallocStep` | mm/heap.c:305-651 | new_malloc on the byte memory is one malloc step of a run |
| `HeapRuns.FreeStep` | mm/heap.c:661-784 | new_free of a live pointer is one free step of a run if the kernel goes on, and leaves the heap valid if it is harmless |
| `HeapRuns.ShrinkStep` | mm/heap.c:878-885 | new_realloc to at most the old size is one step of a run |
| `HeapRuns.WriteStep` | mm/heap.c:305-895 | a write of a byte inside a live block keeps the heap valid and is one step of a run |
| `HeapRuns.ReallocRun` | mm/heap.c:806-895 | new_realloc of a live block is, in every branch after which the kernel goes on and where malloc fails, a run of these steps: a free, a shrink, or a malloc, a write and a free |
| `HeapRuns.Boot` | mm/heap.c:147-163 | from boot on: the first malloc succeeds exactly when it gets pages, its block is cleared, and what is written to it outlives a second malloc |
| `HeapSupply.FoundIsFresh` | mm/heap.c:62-64 | the run mm_alloc_pages finds is a fresh run for every heap whose majors are in use: page aligned and clear of every major |
| `HeapSupply.SupplierMeets` | mm/heap.c:249-271 | so the address mm_alloc_pages returns meets the condition malloc puts on its page supplier in a state whose majors are in use |
| `HeapSupply.StepFed` | mm/heap.c:305-784 | a malloc on top of mm_alloc_pages, or a free that clears no bit of a page in use, keeps the pages of all majors in use |
| `HeapSupply.RunSupplied` | mm/heap.c:305-784 | hence over every run of such mallocs and frees each malloc gets what it relies on |
| `HeapSupply.FailureIsNoRun` | mm/frame.c:75 | the address of a failed search is not NULL, so malloc takes it for a run, and it is never one |
| `HeapSupply.MallocOn` | mm/heap.c:249-295 | new_malloc with mm_alloc_pages underneath, heap and page tables changed together: it adds one block and keeps both invariants, or the kernel stops, exactly when pages are needed and the search fails or panics; it never returns NULL |
| `HeapSupply.Boot` | main.c:107-111 | from boot on: page tables, an empty heap and a first malloc that gets its pages from them |
| `WordBits.BitAfter` | mm/frame.c:32-47 | setting or clearing one bit of a word changes that bit alone |
| `WordBits.BitPlace` | mm/frame.c:32-56 | bit 0 is the lowest of a word, and bit o + 1 is bit o of the word shifted right |
| `WordBits.FullWord` | mm/frame.c:96-104 | the 0xFFFFFFFF test that skips 32 frames is right: a word differs from it exactly when one of its bits is clear |
| `Frames.OneBit` | mm/frame.c:32-47 | in the packed words, setting or clearing a frame adds or removes that frame of the set alone |
| `FrameModel.LowestRun` | mm/frame.c:58-70 | the reference search: the lowest start of n clear frames, and none starts earlier |
| `FrameModel.RunInside` | mm/frame.c:58-70 | the run found lies wholly below nframes exactly when some clear run does; otherwise the search accepts one that hangs over |
| `FrameBoot.Overhang` | mm/frame.c:58-83 | after a paging_fini that found all frames free and a run that takes all but the last of them, two more pages are found at the last frame: both are mapped, and only the first gets a bit |
| `FrameModel.RunRaisesMemUsed` | mm/frame.c:112-125 | marking a clear run of n frames inside the counted words raises mem_used by 4n |
| `FrameModel.AllocTakesLowest` | mm/frame.c:93-110 | alloc_frame takes the lowest free frame, and panics exactly when every counted frame is marked |
| `FrameModel.AllocGood` | mm/page.c:33-47 | alloc_frame keeps frame ownership: no two pages share a frame, mapped frames are marked, the reserved frames stay |
| `FrameModel.FreeGood` | mm/page.c:60-67 | so does free_frame |
| `FrameModel.PagesGood` | mm/frame.c:73-83 | so does mm_alloc_pages; the frames of pages it maps over stay marked, exactly those are leaked |
| `FrameBoot.LeaksExactly` | mm/frame.c:73-83 | mm_alloc_pages leaks no frame if and only if every mapped page of its run is at its own frame |
| `FrameModel.LeakHappens` | mm/frame.c:73-83 | the other case, in a state that paging_fini does not leave: page 1 is mapped over, and frame 5 stays marked for no page |
| `FrameBoot.RangeSettled` | mm/page.c:131-132 | after paging_fini every frame below the unmapped part of the heap is marked and no page from there on is mapped |
| `FrameBoot.NeverLeaks` | mm/frame.c:73-83 | hence no run of mm_alloc_pages from there on, alloc_frame on pages below the unmapped part included, leaks a frame: the marked frames are exactly those reserved and those mapped |
| `FrameBoot.HasFinished` | mm/page.c:105-142 | what PagingFini ensures is the state these results start from |
| `FrameModel.HandedOnce` | mm/frame.c:73-83 | while no frame is freed, mm_alloc_pages never hands out a page twice, nor one in use, runs that hang over included |
| `FrameModel.FreeUndoesAlloc` | mm/page.c:33-67 | free_frame after alloc_frame restores bitmap and mapping, and mem_used goes up by 4 and down again |
| `FrameModel.RunGood` | mm/page.c:33-67 | over every run of alloc_frame, free_frame and mm_alloc_pages, ownership holds and the reserved frames are the first ones plus the leaked ones |
| `FrameModel.ExactlyOwned` | mm/page.c:33-67 | over runs of alloc_frame and free_frame the set bits are exactly the frames reserved at the start plus those now mapped |
| `Frames.Bitmap.constructor` | mm/frame.c:12-20 | set_nframes on whatever memory held: the bits of the first 8 * (nframes / 32) frames are cleared, the others stay; so no frame is marked if and only if memory held zeros behind the cleared bytes |
| `Frames.Bitmap.SetFrame` | mm/frame.c:32-38 | adds one frame to the set of used frames |
| `Frames.Bitmap.ClearFrame` | mm/frame.c:40-47 | removes one frame from it |
| `Frames.Bitmap.TestFrame` | mm/frame.c:49-56 | tests membership |
| `Frames.Bitmap.FirstNFrames` | mm/frame.c:58-70 | the nested loops return the lowest run of n clear frames that starts below nframes, or 0xFFFFFFFF; where they look past the bitmap they see what memory holds there |
| `Frames.Bitmap.FirstFrame` | mm/frame.c:93-110 | returns the lowest clear frame of the whole words, or panics when there is none |
| `Frames.Bitmap.CountUsed` | mm/frame.c:112-125 | mem_used is four times the number of set frames in the whole words |
| `Paging.WalkIsTranslate` | mm/page.c:92-103 | the hardware's walk through physical table addresses and virtual_to_physical agree on present pages |
| `Paging.UserMayIs` | mm/page.c:75-83 | through the entries get_page writes, the hardware lets user mode do exactly what the page's own bits allow |
| `Paging.PageDir.Copy` | mm/page.c:23-31 | copy_page_dir copies all pointers, physical addresses and the address loaded into cr3 |
| `PagingClass.Mmu.constructor` | mm/frame.c:12-25 | set_nframes: the frames used are those whose bits memory happened to hold and that are not cleared; no table, no page mapped |
| `PagingClass.Mmu.KVMalloc` | mm/alloc.c:16-40 | before the heap is online, memory comes from the next page boundary beyond the bump pointer, which moves behind it |
| `PagingClass.Mmu.GetPage` | mm/page.c:69-86 | finds the entry of a page, making a blank table if asked; making one with the heap online panics; no entry changes |
| `PagingClass.Mmu.MakeTable` | mm/page.c:75-83 | a new table is blank, its own memory, and reachable by pointer and by physical address |
| `PagingClass.Mmu.AllocDmaFrame` | mm/page.c:49-58 | maps a page to the given frame and marks the frame only below nframes; the page is present, for users exactly when k is 0, for writing exactly when w is not; no other entry changes |
| `PagingClass.Mmu.AllocFrame` | mm/page.c:33-47 | gives an unmapped page the lowest free frame through one recursion, or only sets flags; the rights are those asked for; it terminates because frame 0 is reserved |
| `PagingClass.Mmu.FreeFrame` | mm/page.c:60-67 | clears the frame's bit and the entry's frame, panics on an entry without one; the entry stays present |
| `PagingClass.Mmu.MmAllocPages` | mm/frame.c:73-83 | marks and identity-maps exactly the lowest clear run, each page of it present, the kernel's alone and read only, no other entry changed; never trips its own panic, and turns a failed search into 0xFFFFF000 with nothing changed |
| `PagingClass.Mmu.MapFixed` | mm/page.c:110-115 | the first two identity loops map every page of their range to itself |
| `PagingClass.Mmu.MapImage` | mm/page.c:116-118 | so does the third, whose bound moves while tables are made; it terminates |
| `PagingClass.Mmu.MapVgaRange` | mm/page.c:120-122 | the VGA loop opens exactly the eight pages from 0xB8000 to users, for writing, and changes no other entry |
| `PagingClass.Mmu.MapIdentity` | mm/page.c:108-122 | up to here: the image is mapped to itself, its frames and frame 0 are marked, and ownership holds |
| `PagingClass.Mmu.MapHeapRange` | mm/page.c:131-132 | the heap loop is alloc_frame on every page of its range in turn |
| `PagingClass.Mmu.PagingFini` | mm/page.c:105-142 | exactly the tables below KHEAP_END exist, the image is mapped to itself, the pages up to the heap to lowest free frames, mapped pages are present and exactly the VGA pages are for users and for writing; frame ownership holds |
| `PagingClass.RunAddresses` | mm/frame.c:75-76 | the addresses of a run do not wrap, and the address of the failure value makes the loop empty |
| `AddressSpaces.Spaces.constructor` | mm/heap.c:21-24 | heap_install after paging_fini: from here on no table is made |
| `AddressSpaces.Spaces.MakeAddressSpace` | arch/x86/sched.c:49-57 | a new process directory shares every table by pointer; all directories keep agreeing |
| `AddressSpaces.Spaces.Switch` | arch/x86/hal.c:25-35 | whichever directory is switched to, cr3 gets the kernel's own physical directory |
| `AddressSpaces.Spaces.VirtualToPhysical` | mm/page.c:92-103 | in whichever directory, the result is the kernel's translation |
| `AddressSpaces.Spaces.AllocPages` | mm/heap.c:62-64 | the page supplier: the run was free, its pages translate to themselves, every other address as before, in every directory; the pages are the kernel's alone and no other page's rights change |
| `AddressSpaces.Spaces.AllocFrame` | mm/page.c:33-47 | on a live system: ownership and agreement kept, the page at its frame with the rights asked for, other pages unmoved |
| `AddressSpaces.Spaces.FreeFrame` | mm/page.c:60-67 | the same for free_frame: the page is still present, and at frame 0 |
| `AddressSpaces.Spaces.Agreement` | mm/page.c:23-31 | address-space agreement: in every state every directory made translates every address as the kernel's does, in software and in hardware |
| `AddressSpaces.Spaces.UserRights` | mm/page.c:23-31 | so on every directory user mode has the same rights, those of the kernel's page entries |
| `AddressSpaces.Boot` | main.c:107-111 | from boot on: after paging_fini and heap_install a process directory is made, a page allocated and the directory loaded, and all directories agree |
| `AddressSpaces.BootAndAllocate` | mm/page.c:105-142 | from boot on, after any allocations of pages and on every directory, user mode can read and write exactly the VGA pages |
| `AddressSpaces.RunBehind` | mm/frame.c:73-83 | after paging_fini no run handed out contains a page below the unmapped part of the heap, the VGA pages among them |
| `SchedModel.Select` | kernel/sched.c:213-229 | the reference selection is the first eligible slot at or after the cursor, in cyclic order |
| `SchedModel.SelectedUnique` | kernel/sched.c:213-229 | there is only one such slot |
| `SchedModel.MarkZombie` | kernel/sched.c:65-70 | exactly the threads of the process become zombies |
| `SchedModel.OccupiedBound` | kernel/sched.c:48-54 | the queue is full exactly when no slot is free |
| `SchedModel.FillPlaces` | kernel/sched.c:48-54 | an accepted process gets every one of its threads into slots that were free, and no other slot changes |
| `SchedModel.AddValid` | kernel/sched.c:38-63 | adding a process keeps sched_current_threads equal to the occupied slots and moves no thread |
| `SchedModel.AcceptedExactly` | kernel/sched.c:42-54 | a process is accepted exactly when its threads leave at least one slot of the queue free, and otherwise nothing changes |
| `SchedModel.DispatchValid` | kernel/sched.c:320-330 | after a selection exactly the new current is RUNNING, no zombie was picked, and not the idle task while init is queued |
| `SchedModel.ExecValid` | kernel/sched.c:38-331 | every boot step, tick, yield, exit and addition keeps the invariant; zombies stay zombies and the idle task does not return |
| `SchedModel.BootValid` | kernel/sched.c:277-291 | the state sched_start_idle leaves satisfies the invariant |
| `SchedRuns.RunSafe` | kernel/sched.c:38-331 | in every reachable state threads keep their slots, a zombie never runs again, and idle is never selected once left |
| `SchedRuns.SwitchNearer` | kernel/sched.c:213-229 | a selection that passes over a waiting thread brings the cursor nearer to it |
| `SchedRuns.BoundedWaiting` | kernel/sched.c:213-331 | a waiting thread is picked within 10 * distance + 10 - time used ticks, at most 320, whatever else happens, unless its process exits |
| `SchedRuns.BoundedSelections` | kernel/sched.c:213-229 | and within ((k - sched_next) mod 32) + 1 selections |
| `SchedRuns.SliceGoesOn` | kernel/sched.c:313-316 | while fewer ticks have passed than are left of its slice, the current thread stays current, the cursor stays, and its time has risen by exactly the ticks, whatever processes are added in between |
| `SchedRuns.SliceEnds` | kernel/sched.c:313-331 | the tick that uses up the slice selects again, from the same cursor, and whatever thread is picked starts a whole slice |
| `SchedRuns.OfflineStill` | kernel/sched.c:300-301 | before can_schedule is set, timer interrupts change neither the current thread, nor the cursor, nor any thread |
| `SchedRuns.WholeSlice` | kernel/sched.c:313-331 | a thread switched to stays current for exactly MAX_PROC_TIME - 1 ticks, and tick number MAX_PROC_TIME selects again |
| `SchedClass.Scheduler.constructor` | kernel/sched.c:17-25 | sched_init: an empty queue |
| `SchedClass.Scheduler.SelectThread` | kernel/sched.c:213-229 | the goto loop stops at the thread the reference selects, with the cursor behind it; it terminates because init is always eligible |
| `SchedClass.Scheduler.PlaceThread` | kernel/sched.c:49-54 | a thread goes to the first free slot |
| `SchedClass.Scheduler.PlaceAll` | kernel/sched.c:48-54 | all threads of a process are placed as the reference fills the queue |
| `SchedClass.Scheduler.AddProcess` | kernel/sched.c:38-63 | -EINVAL for NULL, -ENOSPC when the count would reach 32, else every thread queued and READY |
| `SchedClass.Scheduler.SwitchTo` | kernel/sched.c:321-326 | select, reset the slice, mark RUNNING |
| `SchedClass.Scheduler.Schedule` | kernel/sched.c:295-331 | sched_schedule on threads updated in place is the reference transition |
| `SchedClass.Scheduler.Tick` | kernel/sched.c:295-331 | a timer tick is the reference's tick |
| `SchedClass.Scheduler.Yield` | kernel/sched.c:261-265 | schedule_noirq is the reference's yield |
| `SchedClass.Scheduler.Exit` | kernel/sched.c:84-96 | the exit of the current process is the reference's exit; init's panics |
| `SchedClass.Scheduler.MarkZombies` | kernel/sched.c:65-70 | exactly the slots of the process's threads turn zombie |
| `SchedClass.Scheduler.MakeProcess` | kernel/sched.c:145-186 | NULL without a name, an entry point or memory, a pid used up when only the stack fails; else one thread, not queued yet, with the initial register file |
| `SchedClass.Scheduler.StartIdle` | kernel/sched.c:277-291 | boot leaves idle current in slot 0 and init queued in slot 1 |
| `SchedClass.BootAndTick` | kernel/sched.c:277-331 | from boot on: the queue after idle goes online, yields, and any number of ticks is the reference run |
| `ContextSwitch.Cpu.IrqEntry` | include/levos/x86.h:92-100 | interrupt and handler prologue leave a pt_regs frame with every register as it was and write nothing at or above the interrupted esp |
| `ContextSwitch.Cpu.SavePreIrqRegs` | arch/x86/sched.c:11-23 | copies that frame with the pre-interrupt esp; it panics exactly on a wrong magic |
| `ContextSwitch.Cpu.TakeInterrupt` | include/levos/x86.h:92-100 | together: what is saved is exactly the interrupted register file, and the magic check passes |
| `ContextSwitch.Cpu.IrqExit` | include/levos/x86.h:104-107 | the epilogue pops the frame it finds |
| `ContextSwitch.Cpu.SetupStack` | arch/x86/sched.c:25-41 | rebuilds the eleven words below the saved esp |
| `ContextSwitch.Cpu.SwitchContext` | include/levos/x86.h:78-85 | loads esp and cr3, then POPAD and IRETD |
| `ContextSwitch.Cpu.Resume` | include/levos/x86.h:78-85 | set up and switch: the machine has exactly the registers saved, and only 44 bytes below esp were written |
| `ContextSwitch.ReturnRestores` | include/levos/x86.h:104-107 | a handler that returns resumes the interrupted thread exactly |
| `ContextSwitch.SwitchRestores` | arch/x86/sched.c:25-41 | frame rebuilding and popping are inverse on every register file, in any memory |
| `ContextSwitch.FirstSwitch` | arch/x86/sched.c:59-67 | a new thread starts at its entry point with interrupts on and an empty stack, and nothing outside its stack page is written |
| `ContextSwitch.StepReturns` | include/levos/x86.h:104-107 | an interrupt that returns changes no register and no stack of the interrupted thread |
| `ContextSwitch.StepKeepsRest` | arch/x86/sched.c:25-41 | a switch between two threads leaves saved registers and stack of a third alone |
| `ContextSwitch.Rests` | arch/x86/sched.c:11-41 | a thread switched away from rests undisturbed over any run that does not resume it |
| `ContextSwitch.RoundTrip` | arch/x86/sched.c:11-41 | over every run, a thread resumes with exactly the registers, cr3 and stack it was interrupted with, however many switches lie between |
| `ContextSwitch.SwitchStep` | arch/x86/sched.c:11-41 | interrupt, handler and resume on the machine are one switch step of a run |
| `ContextSwitch.ReturnStep` | include/levos/x86.h:92-107 | interrupt, handler and return on the machine are one return step of a run |
| `Tokens.TokensAreSegments` | lib/string.c:29-76 | repeated strtok returns exactly the maximal non-empty segments between delimiters, in order |
| `Strtok.Tokenizer.SkipDelimiters` | lib/string.c:43-56 | the first loop skips exactly the leading delimiters |
| `Strtok.Tokenizer.CutToken` | lib/string.c:63-73 | the second loop ends the token in place at its delimiter and moves the cursor behind it |
| `Strtok.Tokenizer.Strtok` | lib/string.c:29-76 | strtok with its static cursor: token and rest as the reference says, cursor NULL at the end; a new string is ignored while a scan is pending |
| `Ext2Disk.SectorPosition` | fs/ext2/block.c:3-13 | reading bs / 512 sectors from sector block * (bs / 512) reads exactly the bytes of the block |
| `Ext2Disk.SlotPosition` | fs/ext2/inode.c:16-22 | block and slot arithmetic give the byte index * 128 of the inode table, and no entry straddles a block |
| `Ext2Disk.InodePosition` | fs/ext2/inode.c:3-28 | the 128 bytes copied out are entry (inode - 1) mod inodes-per-group of its group's table |
| `Ext2Format.InodeNumbering` | fs/ext2/inode.c:6-16 | group and index number the inodes: group * inodes-per-group + index is the inode number less one, with the index below inodes-per-group, and no other pair does |
| `Ext2Format.DifferentInodes` | fs/ext2/inode.c:6-16 | different inodes have different groups or different indices |
| `Ext2Format.InodeLies` | fs/ext2/inode.c:3-28 | entry i of group g is the 128 bytes at i * 128 of the table whose block is the third word of descriptor g |
| `Ext2Format.BlockOrder` | fs/ext2/file.c:62-74 | block k of a file is the kth little-endian word of the block pointers in the inode, or, from 12 on, of the numbers in the indirect block |
| `Ext2Format.FlatFile` | fs/ext2/file.c:62-115 | so the flat file is these blocks laid end to end, in that order |
| `Ext2Format.ReadOrder` | fs/ext2/file.c:81-121 | and a read that fits, with the index variable right at indirect blocks, delivers that part of them |
| `Ext2Format.DirectoryReads` | include/levos/ext2.h:80-86 | reading a block written as records (inode, size, name length, a byte, name, padding) gives back their inodes and names, in order |
| `Ext2Format.LookupReads` | fs/ext2/dir.c:3-36 | a lookup in a directory of such blocks yields the inode of the first record whose name is a prefix of the component |
| `Ext2Format.EndsExactly` | fs/ext2/dir.c:17-18 | a block ends the directory exactly when the size or the name length of its first record is 0 |
| `Ext2Disk.LookupFinds` | fs/ext2/dir.c:14-35 | in a well-formed directory a lookup yields the first entry whose name is a prefix of the component |
| `Ext2Disk.ExactWhenNoPrefix` | fs/ext2/dir.c:21 | that is the exact-name entry if and only if no earlier entry is named by a proper prefix of the component |
| `Ext2Disk.PrefixHides` | fs/ext2/dir.c:14-35 | a concrete volume whose root directory holds "a" and "ab", where the lookup of "ab" returns the inode of "a" |
| `Ext2Disk.ResolveFollows` | fs/ext2/file.c:15-22 | the loop of ext2_find_file_inode is the left fold of directory lookup over the tokens |
| `Ext2Disk.PendingAfter` | fs/ext2/file.c:15-22 | a resolution leaves the tokenizer idle exactly when it succeeds |
| `Ext2Disk.FindFollows` | fs/ext2/file.c:3-23 | with no scan pending, a path is resolved by following its maximal segments from inode 2 |
| `Ext2Disk.FollowsExactly` | fs/ext2/dir.c:14-35 | along tiled directories where no earlier entry is named by a proper prefix of the component, following lookups is following exact names |
| `Ext2Disk.FindExact` | fs/ext2/file.c:3-23 | so there, with no scan pending, resolution is the fold of exact-name lookup over the segments of the path |
| `Ext2Disk.StaleScan` | fs/ext2/file.c:8-20 | with a scan pending, the path is ignored and the rest of the old one is resolved |
| `Ext2Disk.AfterFailure` | fs/ext2/file.c:18-19 | a failed lookup leaves such a scan; if its last component was the missing one, the next lookup returns the root whatever its path |
| `Ext2Disk.IdleOnly` | fs/ext2/file.c:3-23 | resolution finds the right thing on every volume and path if and only if no scan is pending |
| `Ext2Disk.RightBlock` | fs/ext2/file.c:66-74 | the block read is the file's whatever the shadowed index variable holds if and only if it is one of the twelve direct ones; the read leaves the indirect block exactly when that variable leads outside it |
| `Ext2Disk.AimedRead` | fs/ext2/file.c:81-121 | a read that fits delivers the bytes of the file when the shadowed variable holds the block number at every indirect block |
| `Ext2Disk.RightReads` | fs/ext2/file.c:81-121 | a read delivers the bytes of the file whatever that variable holds if and only if it fits and fetches no block through the indirect block |
| `Ext2Disk.FitsExactly` | fs/ext2/file.c:96-115 | the copy stays inside the count / bs + 1 fetched blocks if and only if pos % bs + count % bs <= bs |
| `Ext2Disk.ShortFetch` | fs/ext2/file.c:96-115 | a concrete read that does not fit: 100 bytes from position 1000 with blocks of 1024 bytes |
| `Ext2Disk.AlignedFits` | fs/ext2/file.c:96-115 | a read whose position or length is a multiple of the block size always fits |
| `Ext2Class.ReadTwice` | fs/ext2/file.c:81-121 | two consecutive reads that fit deliver the bytes one longer read of the file would |
| `Ext2Class.OpenAndRead` | fs/ext2/file.c:133-149 | from mount on: opening a file and reading from its start delivers the first bytes of its blocks, in the order the inode names them |
| `Ext2Disk.FetchedByte` | fs/ext2/file.c:108-115 | where in the fetched blocks a byte is, and from which block of the disk it came |
| `Ext2Class.Filesystem.ReadBlock` | fs/ext2/block.c:3-13 | fills the buffer with exactly the block's bytes and nothing beyond |
| `Ext2Class.Filesystem.InodeTable` | fs/ext2/inode.c:9-18 | pointer stepping reaches the descriptor of the group |
| `Ext2Class.Filesystem.CopyEntry` | fs/ext2/inode.c:19-24 | pointer stepping copies out the entry at the index |
| `Ext2Class.Filesystem.ReadInode` | fs/ext2/inode.c:3-28 | yields the inode whenever its group descriptor is in the block that is read: entry i of the table of group g for the one g and i with g * inodes-per-group + i + 1 the inode number |
| `Ext2Class.Filesystem.Strncmp` | lib/string.c:19-25 | compares n bytes, past the terminator if need be |
| `Ext2Class.Filesystem.SearchBlock` | fs/ext2/dir.c:19-32 | the record walk over one block |
| `Ext2Class.Filesystem.ReadDirectory` | fs/ext2/dir.c:3-36 | the walk over the direct blocks finds what the reference lookup finds |
| `Ext2Class.Filesystem.FindFileInode` | fs/ext2/file.c:3-23 | result and the tokenizer state left behind are those of the reference resolution |
| `Ext2Class.Filesystem.FileReadBlock` | fs/ext2/file.c:51-79 | reads the block the reference names, -ENOENT, or -ENOSYS exactly from block bs / 4 on, with the shadowed index as a parameter |
| `Ext2Class.Filesystem.Fetch` | fs/ext2/file.c:108-112 | fetches consecutive blocks into consecutive parts of the buffer, each from the block the reference names, and leaves a buffer exactly when some index misses the indirect block |
| `Ext2Class.File.constructor` | fs/ext2/file.c:133-149 | opens at position 0 |
| `Ext2Class.File.ReadBlocks` | fs/ext2/file.c:92-115 | blocks and copy: what ends up in the caller's buffer is the read outcome of the reference |
| `Ext2Class.File.Read` | fs/ext2/file.c:81-121 | when the path resolves, a read of bytes the file reaches has exactly the reference's outcome: bytes and pos moved by count, or a read outside a buffer |

## Left out

- HeapClass.Heap.Malloc: the other requests within 4175 bytes of 2^32, whose 32-bit sums wrap, are
  outside its precondition: the code then asks for too few pages for the block (`RunCoversRequest`).
- HeapClass.Heap.Realloc: the same for new sizes, 2^32 - 32 included. It says nothing of `l_bestBet`
  beyond the invariant, that it is NULL or a major in the list.
- HeapClass.Heap.Free: a pointer that is neither NULL nor live must lead to a header without the magic;
  what follows from any other pointer is undefined.
  The bits that giving pages back clears are reported as frame numbers: the bitmap is not part of the
  heap's memory, and what a number beyond the bitmap makes `clear_frame` write to is not modelled.
- HeapSupply.RunSupplied: frees may not clear bits of pages in use; which numbers stand in the words
  below a major is up to memory.
- The lock of the heap is a flag that must be free when an operation starts and is free when it
  returns; nothing runs concurrently.
- `new_calloc`, statistics, DEBUG output and the distinction of the dead magic, which only changes
  messages.
- Frames.Bitmap.constructor: at most 2 GiB of frames, since the search counts addresses in a signed int.
- Frames.Bitmap.FirstNFrames: the addresses looked at stay below 4 GiB, where they would wrap.
- PagingClass.Mmu.MmAllocPages: needs nframes + n to be within the bitmap, past which the search reads
  foreign memory.
- PagingClass.Mmu.PagingFini: starts from an empty directory with the kernel image ending below
  0x1FC00000, 4 MiB short of KHEAP_END; table memory from the bump pointer is fresh, so it never
  coincides with memory that is handed out elsewhere.
- PagingClass.Mmu.GetPage: the accessed, dirty and unused bits of entries are not modelled, and the bump
  allocator never runs out, as in the code.
- SchedClass.Scheduler.Exit: the removal loop behind the self-exit is left out: it is never reached
  from the only caller, and it dereferences empty slots.
- SchedClass.Scheduler.MakeProcess: the file table, the name and the clearing of the stack page are left
  out. A thread's register file is kept as it was made; what interrupts save in it is the subject of
  ContextSwitch.
- ContextSwitch.Cpu.IrqEntry: interrupts come from the same privilege level; eflags is one word and
  the changes the processor makes to it on entry are not modelled.
- Sector, block and byte numbers of a disk do not wrap around at 2^32.
- Ext2Class.File.Read: says nothing of the bytes when a stale scan made only the first lookup of a read
  succeed, nor of bytes past the last block the code can find, because it ignores those errors.
  End-of-file clamping is absent from the code.
- Allocation failures inside ext2, leaks on its error paths, the ENOTDIR test (dead by operator
  precedence), `ext2_stat` and the computation of `first_bgd` by mount, which is taken as given.
- Port and device input and output, interrupt controller set-up, the syscall table, `elf_load`,
  devfs, the shell, the multiboot map, consoles and tty buffers: they would only add easy members or
  depend on hardware.
