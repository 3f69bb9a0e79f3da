# JordanOS, modelled and proved in Dafny

JordanOS is a small 64-bit kernel. This project models the parts of it that are data structures and index
arithmetic rather than hardware, and proves what they keep, over every input and every run:

* **The two-level allocator.** `PageBitmap` is the word-packed page bitmap of `kernel/pmm.c`, fed by the Multiboot2
  memory map (`Multiboot`). `HeapModel`, `HeapSteps`, `HeapTheorems`, `HeapSearch` and `HeapHistory` treat the block
  list of `kernel/heap.c` as a value and prove its invariants; `HeapLinks` and `HeapHeaders` say when header bytes in
  memory hold such a list; `KernelHeap` is the code itself over a byte array, each store in place, proved against the
  list operations; `MemoryRuns` has the theorems about whole runs with other page clients in between.
* **The framebuffer terminal.** `Terminal` gives each routine of `kernel/fb.c` its meaning on character cells,
  `screen_buf` and the cursor, and `Effects` says cell by cell what each call does. `Agreement` compares the
  incrementally kept picture with a full redraw, `Transcript` compares the bounded grid with an unbounded wrapped text.
  `Pixels` and `FrameBuffer` carry this down to the words of the framebuffer and the loops that write them, and `Looks`
  states the agreement in pixels.
* **Paging.** `Paging` has the boot tables of `boot/boot.s`, `paging_map_fb` and a four-level translation after section
  4.5 of the Intel SDM, Volume 3A.
* **Input.** `KeyTable` has the two character maps; `Keyboard` is the scancode state machine with its line buffer, in
  step with the display; `Shell` is the in-place tokenizer, to which Enter hands the line. `FailingRuns` has runs on
  which display and keyboard break their promises.
* **Numbers.** `Numbers` has the formatters of `kernel/memory.c` and `kernel/fb.c` and the parsers that undo them.

`Bits`, `Bytes` and `Words` hold C's bitwise operators, little-endian loads and stores, and shared constants.

## Where the code and its promises part

Each of these is kept as the code has it; the lemma named says exactly when the promise holds.

* `kmalloc` never tests `in_use` (kernel/heap.c:32-47), although include/heap.h:6-11 says it looks for an empty block.
  The parameter `emptyOnly` chooses between the two: `false` is the code, `true` the documentation. The tiling of pages
  by blocks holds for both. The code hands out a pointer somebody holds exactly when the first block that is big enough
  is in use (`UntestedSearchAliases`, over runs `UntestedRunsAreSafeIff`); two small requests on a new heap already get
  one address (`UntestedSearchReturnsOneAddressTwice`). Disjointness, coalescing and byte preservation are proved for
  the documented search, and carry over to every run of the code that never meets that case (`SafeRunsAreDocumented`).
* `pmm_alloc` answers 0 for "no page" and for page 0 (kernel/pmm.c:50-54); `ZeroAnswer` says when. `heap_init` does not
  look at its answer (kernel/heap.c:7). The heap theorems start from a bitmap whose page 0 is taken.
* `pmm_init` ignores `base_addr`, keeps 32 bits of `length` and does not check that a page lies in its bitmap
  (kernel/pmm.c:5, 22-42). On ordered page-aligned maps the bitmap is right and in bounds exactly when at most 2^20
  pages are counted and the entries up to the last usable one follow each other from 0, each below 4 GiB
  (`MapIsUnderstoodIff`).
* `mmap_first` does not look for an empty map (kernel/memory.c:14-18; `WalkEnumeratesMap`).
* `fb_scroll` blanks with black, not with the theme's background (kernel/fb.c:124-125). `ScrollAgreesIff` and
  `StepAgreesIff` say for which screens and calls the picture still is what a redraw would paint, `RunAgreesIff` for
  which runs, and `StepLooksRightIff` that the difference is seen. A navy theme and a screenful of empty lines is such a
  run (`NavyLinesDisagree`).
* `screen_buf` has 64 rows (kernel/fb.c:19-21); a taller grid loses text on redraw (`AllRunsAgreeIff`,
  `AllRunsLookRightIff`).
* The Enter key with a wrap pending below the bottom row scrolls once where ending the line would need two scrolls
  (kernel/keyboard.c:50-53, kernel/fb.c:140-143; `EnterShowsIff`, `EnterDoesNotEndTheLine`).
* Backspace shortens the line buffer but does not go back over a wrapped row on the screen (kernel/fb.c:79,
  kernel/keyboard.c:61-64; `BackspaceInStep`, `FullRowBreaksStep`); a key without a character lengthens the line and
  prints nothing (kernel/keyboard.c:68-72; `TypedInStep`, `FirstTabBreaksStep`). Its NUL also ends the command there:
  the shell gets the whole line exactly when it holds no NUL and at most 255 characters (`WholeLineIff`).
* `paging_map_fb` works exactly for the framebuffers `IdentityMapping` names: it replaces whatever its PDPT entry held
  and stops at the end of one directory (kernel/paging.c:12-15).

## Model

| member | source | states |
|---|---|---|
| Multiboot.NextTag | include/multiboot.h:56-58 | the next tag is the first 8-aligned address past this one |
| Multiboot.FindTag | include/multiboot.h:60-68 | the tag walk ends, and answers what the recursive description of the tag list gives |
| Multiboot.FindTagFindsFirst | include/multiboot.h:60-68 | the answer is the first tag of the wanted type in list order, and 0 exactly when the list has none |
| Multiboot.MmapFirst | kernel/memory.c:14-18 | the place right behind the header of the memory-map tag, or 0 without one |
| Multiboot.MmapNext | kernel/memory.c:20-27 | one entry size further, or 0 past the end of the tag |
| Multiboot.SuccessorStep | kernel/memory.c:20-27 | from entry k the walk goes to entry k+1, and from the last one to 0 |
| Multiboot.WalkEnumeratesMap | kernel/memory.c:14-27 | first/next visit every entry once and in order, exactly when the map has an entry |
| Multiboot.EntryListed | kernel/memory.c:14-27 | what is read at the k-th address of the walk is the k-th entry of the map |
| Multiboot.FieldOffsets | include/multiboot.h:21-43 | where the fields lie: a tag's type and size at 0 and 4, the entry size at 8, an entry's base, length and type at 0, 8 and 16 |
| Multiboot.EntryStored | include/multiboot.h:37-42 | an entry stored at those offsets, little end first, is read back as it was |
| Multiboot.TagStored | include/multiboot.h:30-35 | so is the header of a map tag |
| Multiboot.MapBlockIsRead | kernel/memory.c:14-27 | a block whose bytes hold a map, its end tag and nothing else is well formed and read as exactly those entries |
| Bytes.LittleEndian | include/multiboot.h:21-43 | four bytes make a word with the lowest first, two words a quadword likewise |
| PageBitmap.TestedAfterUpdate | kernel/pmm.c:9-19 | setting or clearing a page's bit changes the test of that page and of no other |
| PageBitmap.FlagsAfterUpdate | kernel/pmm.c:9-19 | the packed words refine a sequence of flags: a bit operation is the update of one flag |
| PageBitmap.LowestFree | kernel/pmm.c:45-55 | a free page with only taken pages below it, or the page count if all are taken |
| PageBitmap.AllocTakesLowest | kernel/pmm.c:45-55 | with p the lowest free page the answer is p * 4096 and flag p alone is set |
| PageBitmap.AllocFindsNone | kernel/pmm.c:45-55 | with none free it is 0 and no flag changes |
| PageBitmap.ZeroAnswer | kernel/pmm.c:45-55 | pmm_alloc answers 0 exactly when nothing is free or page 0 is; every answer is a page below 4 GiB |
| PageBitmap.FreeUndoesAlloc | kernel/pmm.c:45-60 | the page handed out was free and is taken now, and freeing it restores every flag |
| PageBitmap.CountUpdate | kernel/pmm.c:45-60 | flipping one flag moves the number of free pages by one, the cached count's step |
| PageBitmap.CountIsCardinality | kernel/pmm.c:7 | the count is the size of the set of free pages |
| PageBitmap.MapFlagsAreFrames | kernel/pmm.c:21-43 | on a contiguous map flag p is free exactly when frame p lies in a usable entry, for all frames |
| PageBitmap.MapBlockFlags | kernel/pmm.c:21-43 | from bytes to flags: on a block that holds a contiguous map there is a flag for every 4096 bytes of it, free exactly in usable entries |
| PageBitmap.MapIsUnderstoodIff | kernel/pmm.c:5-43 | on any ordered, page-aligned map the bitmap tells usable frames from the rest and holds all pages counted, exactly when those are at most 2^20 and the entries up to the last usable one follow each other from 0, each below 4 GiB |
| PageBitmap.SixGigabytesOverrun | kernel/pmm.c:26-42 | a 6 GiB map without a hole whose flags would be right and do not fit the bitmap |
| PageBitmap.FlagCount | kernel/pmm.c:29-38 | the flags are as many as the page counts of the entries add up to |
| PageBitmap.MapFlagsGrow | kernel/pmm.c:26-42 | on any map each entry adds one flag per 4096 bytes of the low 32 bits of its length, free for type 1 |
| PageBitmap.HolesAndHugeEntriesAreMisread | kernel/pmm.c:26-42 | a map with a hole offers a frame no entry covers, and a 4 GiB entry offers nothing |
| PageBitmap.Pmm.constructor | kernel/pmm.c:5-7 | the zeroed statics are a valid allocator without pages |
| PageBitmap.Pmm.BitmapSet | kernel/pmm.c:9-11 | the bit of one page is set in the real array |
| PageBitmap.Pmm.BitmapClear | kernel/pmm.c:13-15 | the bit of one page is cleared in the real array |
| PageBitmap.Pmm.BitmapTest | kernel/pmm.c:17-19 | true exactly when bit page % 32 of word page / 32 is set |
| PageBitmap.Pmm.AppendFreePages | kernel/pmm.c:29-33 | the loop appends that many free pages and counts them |
| PageBitmap.Pmm.AppendTakenPages | kernel/pmm.c:36-39 | the loop appends that many taken pages and leaves the free count right |
| PageBitmap.Pmm.InitStep | kernel/pmm.c:26-42 | one turn adds the entry at the cursor and moves the cursor to the next entry |
| PageBitmap.Pmm.Init | kernel/pmm.c:21-43 | the flags are those of the map's entries laid end to end, and free_pages counts the free ones |
| PageBitmap.Pmm.Alloc | kernel/pmm.c:45-55 | hands out the lowest free page, marks it and nothing else, and keeps free_pages exact |
| PageBitmap.Pmm.Free | kernel/pmm.c:57-60 | a page its caller owns becomes free, no other flag moves, and free_pages stays exact |
| HeapModel.FirstFit | kernel/heap.c:30-47 | the first block in list order that fits, or none |
| HeapModel.DistinctCoverApart | kernel/heap.c:6-90 | blocks that lay out distinct addresses do not overlap |
| HeapModel.PageAddrsDistinct | kernel/heap.c:48-57 | different acquired pages never share an address |
| HeapSteps.SplitCover | kernel/heap.c:14-24 | resize_block's two blocks lay out the same addresses as the one it cut |
| HeapSteps.MergeCover | kernel/heap.c:71-87 | a merge of contiguous neighbours lays out the same addresses |
| HeapSteps.KmallocKeepsTiling | kernel/heap.c:26-63 | with or without the in_use test, the blocks in list order stay exactly the acquired pages in acquisition order |
| HeapSteps.KfreeKeepsTiling | kernel/heap.c:65-90 | so does kfree, merging both ways |
| HeapSteps.TilingFacts | include/heap.h:2-12 | in a tiled heap blocks are pairwise disjoint, sizes and headers sum to 4096 per page, and no address or size leaves 32 bits |
| HeapSteps.BlockByteInPage | include/heap.h:2-12 | every byte of a block lies in an acquired page |
| HeapSteps.FreeShape | kernel/heap.c:65-90 | kfree turns the block and its free contiguous neighbours into one free block and keeps the rest |
| HeapSteps.CarveCoalesced | kernel/heap.c:33-44 | carving an empty block leaves no two free contiguous neighbours |
| HeapSteps.FreeCoalesced | kernel/heap.c:70-87 | nor does kfree, on either side, also across pages |
| HeapTheorems.InitSound | kernel/heap.c:6-12 | the first heap tiles its page, is coalesced and has nothing live |
| HeapTheorems.LivePayloadsDisjoint | include/heap.h:2-12 | a live payload meets no other payload and no header, and lies in acquired pages |
| HeapTheorems.KmallocAddsOne | kernel/heap.c:26-63 | a documented kmalloc adds one live block of n to n+27 bytes under a pointer nobody holds and keeps all other live blocks; a failing one changes nothing |
| HeapTheorems.KmallocKeepsSound | kernel/heap.c:26-63 | and keeps tiling and maximal coalescing |
| HeapTheorems.KmallocOutcome | kernel/heap.c:26-63 | it fails exactly when n is over 4072, or no empty block is big enough and there is no page; else it takes the first such block in list order, and a fresh page only without one |
| HeapTheorems.KmallocFromList | kernel/heap.c:14-44 | the list afterwards, block by block: with 28 bytes to spare the block found is cut at n, else it is taken whole |
| HeapTheorems.KmallocFromPage | kernel/heap.c:48-62 | with none found the list grows by the page, cut at n up to 4044 bytes |
| HeapTheorems.KmallocRefuses | kernel/heap.c:27-53 | a request over 4072 bytes, or one without block and page, answers 0 and changes nothing |
| HeapSearch.UntestedSearchAliases | kernel/heap.c:32-47 | the code hands out a pointer somebody holds exactly when the first big enough block is in use, and differs from the documentation exactly then |
| HeapSearch.UntestedSearchReturnsOneAddressTwice | kernel/heap.c:32-47 | two requests of 8 bytes on a new heap get the same address |
| HeapSearch.UntestedSearchCoalescing | kernel/heap.c:32-38 | the code breaks maximal coalescing exactly when it splits a block in use before a free contiguous one |
| HeapTheorems.KfreeRemovesOne | kernel/heap.c:65-90 | kfree removes exactly the block of its pointer from the live ones |
| HeapTheorems.KfreeFromList | kernel/heap.c:65-90 | the list afterwards, block by block: the block and its free contiguous neighbours are one free block, all others as they were |
| HeapTheorems.KfreeKeepsSound | kernel/heap.c:65-90 | and keeps tiling and maximal coalescing |
| HeapHistory.CoalescedListIsUnique | kernel/heap.c:14-90 | two coalesced lists over the same addresses with the same live blocks are equal |
| HeapHistory.HistoryIndependent | kernel/heap.c:14-90 | the block list is a function of the pages acquired, in order, and of the live blocks |
| HeapHistory.KfreeUndoesKmalloc | kernel/heap.c:26-90 | kfree of a fresh kmalloc that took no page restores addresses, sizes, order and flags |
| HeapLinks.SplitWritten | kernel/heap.c:14-24 | resize_block's header writes turn a doubly linked list into that of the split list |
| HeapLinks.MergeWritten | kernel/heap.c:73-87 | a merge's header writes leave next and prev inverse on the merged list |
| HeapLinks.AppendWritten | kernel/heap.c:54-57 | linking a page leaves a doubly linked list with the new block last |
| HeapHeaders.WroteBytes | include/heap.h:19-24 | bytes stored inside one header change no header apart from it |
| HeapHeaders.StoreSize | include/heap.h:20 | storing 4 bytes at offset 0 changes the size field only |
| HeapHeaders.StoreInUse | include/heap.h:21 | storing 1 byte at offset 4 changes in_use only |
| HeapHeaders.StoreNext | include/heap.h:22 | storing 8 bytes at offset 8 changes next only |
| HeapHeaders.StorePrev | include/heap.h:23 | storing 8 bytes at offset 16 changes prev only |
| HeapHeaders.ListInMemory | include/heap.h:19-24 | the bytes of a list: size, flag, and next and prev, null at its ends |
| HeapHeaders.KmallocKeepsPayloads | kernel/heap.c:26-63 | stores to headers of the list kmalloc leaves change no byte of a payload that was live, unless the search as written hands one out again |
| HeapHeaders.KfreeKeepsPayloads | kernel/heap.c:65-90 | stores to headers of the list kfree finds change no byte of a payload that stays live |
| HeapHeaders.CallerStoresKeepTheList | include/heap.h:2-12 | callers that store in live payloads and in pages of their own leave every header and link as it was |
| KernelHeap.AnswerIsFresh | kernel/heap.c:49 | pmm_alloc never answers a page the heap already owns |
| KernelHeap.Heap.StoreWord | kernel/heap.c:14-24 | a store writes the word's bytes, little end first, and no others |
| KernelHeap.Heap.ResizeBlock | kernel/heap.c:14-24 | the memory then holds the split list; only headers are written |
| KernelHeap.Heap.HeapInit | kernel/heap.c:6-12 | the memory holds one free block of 4072 bytes on the lowest free page, now taken |
| KernelHeap.Heap.CarveBlock | kernel/heap.c:33-44 | split if 28 bytes are to spare, then in use: the memory holds the carved list |
| KernelHeap.Heap.LinkPage | kernel/heap.c:54-57 | the page is linked behind the last block |
| KernelHeap.Heap.Grow | kernel/heap.c:54-62 | the memory holds the list grown by a page and carved |
| KernelHeap.Heap.Search | kernel/heap.c:30-47 | the list walk ends at the first fitting block, or at the last block without one |
| KernelHeap.Heap.Occupy | kernel/heap.c:33-44 | the block found is carved; pages and flags stay |
| KernelHeap.Heap.Extend | kernel/heap.c:48-62 | a fresh page is linked and carved, or 0 is answered and nothing changes |
| KernelHeap.Heap.Kmalloc | kernel/heap.c:26-63 | memory, page bitmap and answer are those of the list operation, for both searches; a page is asked for only where no block fits; only header bytes change, and no byte of a live payload unless the search as written hands that payload out again |
| KernelHeap.Heap.Absorb | kernel/heap.c:73-76 | the block swallows its successor and the one after is relinked |
| KernelHeap.Heap.MergePrev | kernel/heap.c:70-78 | a free contiguous predecessor absorbs the block, else nothing changes |
| KernelHeap.Heap.MergeNext | kernel/heap.c:80-89 | a free contiguous successor is absorbed, and the block is marked free |
| KernelHeap.Heap.Kfree | kernel/heap.c:65-90 | the memory holds the freed and coalesced list; only header bytes of the old list change, and no byte of a payload that stays live |
| KernelHeap.Heap.CallerStore | include/heap.h:2-12 | a caller's store where it may leaves heap and bitmap valid and the list unchanged |
| KernelHeap.Heap.TakePage | kernel/pmm.c:45-55 | another client of the page allocator leaves the heap valid |
| KernelHeap.Heap.GivePage | kernel/pmm.c:57-60 | so does giving back a page that is not the heap's |
| MemoryRuns.BootIsGood | kernel/heap.c:6-12 | heap_init on a bitmap with page 0 taken establishes all invariants |
| MemoryRuns.RunsKeepTiling | kernel/heap.c:26-90 | after every run, also of the code as written, the blocks tile the acquired pages and those are taken in the bitmap |
| MemoryRuns.RunsAreGood | kernel/heap.c:26-90 | after every run of the documented allocator the list is maximally coalesced too |
| MemoryRuns.UntestedRunsAreSafeIff | kernel/heap.c:32-47 | a run of the code as written never hands out a held pointer exactly when no kmalloc meets an in-use block that is the first big enough |
| MemoryRuns.SafeRunsAreDocumented | kernel/heap.c:26-90 | and such a run does, call by call, what the documented allocator does |
| MemoryRuns.MallocTakesItsPage | kernel/heap.c:26-63 | a kmalloc changes flag p exactly when it appends page p * 4096 to the heap; free pages and heap pages keep their sum |
| MemoryRuns.OtherStepsAndPages | kernel/pmm.c:45-60 | kfree and stores change no flag; a page client takes the lowest free page or frees the one it names, and leaves the heap as it was |
| MemoryRuns.RunsConservePages | kernel/heap.c:26-90 | over any run without other page clients free pages plus heap pages stay the same |
| MemoryRuns.RunsAreHistoryIndependent | kernel/heap.c:14-90 | two runs from boot that acquired the same pages and left the same blocks live have the same list |
| MemoryRuns.EmptyHeapIsPageRuns | kernel/heap.c:65-90 | with nothing live there is one free block per maximal run of contiguous pages |
| MemoryRuns.FreeingAll | kernel/heap.c:65-90 | freeing all live pointers in any order is legal and ends there; with one page the heap is the one of heap_init |
| MemoryRuns.Perform | kernel/heap.c:26-90 | one call, page client or store on the real memory and bitmap is the model's step |
| MemoryRuns.PerformAll | kernel/heap.c:26-90 | any run of them is the model's run, and with the documented search ends tiled and coalesced |
| Paging.PageTables.constructor | boot/boot.s:75-93 | the tables start zeroed |
| Paging.PageTables.Boot | boot/boot.s:75-93 | PML4 entry 0, PDPT entry 0 and all 512 directory entries are those of a 1 GiB map |
| Paging.PageTables.MapLow | boot/boot.s:83-93 | loop l1 writes entry i as page i with flags 0x83 |
| Paging.PageTables.MapFb | kernel/paging.c:4-15 | one PDPT entry and a run of directory entries change, nothing else; a zero address or size changes nothing |
| Paging.PageTables.CountPages | kernel/paging.c:10 | one page more than the fewest that hold the size, exactly when the size is at most (2^32 - 2) pages; beyond, the 64-bit sum or the 32-bit cast wraps |
| Paging.PageTables.FillDirectory | kernel/paging.c:14-15 | consecutive entries map consecutive 2 MiB pages and the loop stops at entry 512 |
| Paging.BootEntries | boot/boot.s:75-93 | the boot entries: present and writable, and large pages in the directory |
| Paging.FbEntries | kernel/paging.c:12-15 | the framebuffer's PDPT entry, and its directory entries as writable large pages one after the other; all others as before |
| Paging.NothingToMap | kernel/paging.c:5 | a zero address or size changes no entry |
| Paging.CountIs | kernel/paging.c:10 | the page count for every 64-bit size: one more than needed, and 1 where the sum wraps |
| Paging.SliceBits | kernel/paging.c:7-9 | the shifts and masks are the index and base fields of the address |
| Paging.WalkAfterBoot | kernel/paging.c:4-15 | where every address goes: to itself when it lies in the low 1 GiB, or in a covered page of the framebuffer's region, which replaces what was mapped there, and nowhere otherwise |
| Paging.PagesCover | kernel/paging.c:10 | ceil(size / 2 MiB) + 1 pages cover a region inside 1 GiB however it is aligned |
| Paging.MappableIsMapped | kernel/paging.c:4-15 | a framebuffer below 512 GiB inside one 1 GiB region other than the first is mapped to itself and the low 1 GiB stays so |
| Paging.WitnessNotMapped | kernel/paging.c:4-15 | for every other framebuffer a concrete address is not its own translation |
| Paging.IdentityMapping | kernel/paging.c:4-15 | so the low 1 GiB and the framebuffer are identity mapped if and only if the framebuffer is mappable |
| Effects.ThemeRepaints | kernel/fb.c:198-213 | a theme sets both colours and paints every cell in them from screen_buf, the cursor in the foreground |
| Effects.OthersKeepColors | kernel/fb.c:68-207 | no other routine changes a colour |
| Effects.LastThemeColors | kernel/fb.c:209-213 | after a run the colours are those of its last theme |
| Effects.RunsKeepColors | kernel/fb.c:68-207 | and without a theme those it started with |
| Effects.StartScreen | kernel/fb.c:14-17 | white on black, every cell black, nothing in screen_buf, cursor at the origin |
| Effects.CursorBlinks | kernel/fb.c:68-76 | the cursor cell takes the foreground or the background, and nothing else changes |
| Effects.ClearBlanks | kernel/fb.c:187-196 | every cell the background, screen_buf blank, cursor home and not drawn |
| Effects.BackspaceErases | kernel/fb.c:78-86 | the old cursor cell becomes background, the one before it the cursor, and its byte 0 |
| Effects.BackspaceAtMargin | kernel/fb.c:79 | in column 0 nothing happens |
| Effects.PrintedChar | kernel/fb.c:156-167 | a character takes the cursor's cell and byte, and the cursor goes one cell on, at the margin to the next row |
| Effects.PrintedBelow | kernel/fb.c:156-167 | from below the grid everything moves up a row first, the rest of the new row black |
| Effects.DrawnChar | kernel/fb.c:100-116 | one character in any two colours: its cell and its byte alone |
| Effects.WrittenCell | kernel/fb.c:149-154 | write_fb at every cell: the text from its column on, as far as the row goes |
| Effects.PrintlnCursor | kernel/fb.c:169-177 | println leaves the cursor in column 0 of the next row, of the bottom row at most |
| Effects.PrintedLine | kernel/fb.c:169-177 | cell and byte (i, j) after a println above the bottom row |
| Effects.PrintedLastLine | kernel/fb.c:169-177 | cell (i, j) after one on the bottom row, which scrolls once |
| Effects.SavedLastLine | kernel/fb.c:127-133 | and its byte of screen_buf |
| Effects.PrintedLineBelow | kernel/fb.c:169-177 | cell (i, j) after one from below the grid, which scrolls twice |
| Effects.SavedLineBelow | kernel/fb.c:127-133 | and its byte of screen_buf |
| Effects.EnterDescends | kernel/keyboard.c:51-53 | Enter above the bottom row erases the cursor and moves it to the next row's column 0 |
| Effects.EnterScrolls | kernel/keyboard.c:51-53 | and scrolls once from there on |
| Agreement.StepKeepsAgreement | kernel/fb.c:68-213 | on black every routine keeps each cell outside the cursor what redraw_screen would paint, and each cell from the cursor on blank in the shadow |
| Agreement.RunsAgree | kernel/fb.c:68-213 | so after every run of prints, println, backspaces, clears, black themes, Enters and blinks |
| Agreement.AllRunsAgreeIff | kernel/fb.c:19-21 | all black runs from start-up agree cell by cell if and only if the grid has at most 64 rows |
| Agreement.TallGridDisagrees | kernel/fb.c:114-115 | 64 empty lines and any one character are enough on a taller grid, in cells |
| Agreement.ScrollAgreesIff | kernel/fb.c:118-136 | fb_scroll keeps a clean picture in agreement if and only if the background is black or there is one column |
| Agreement.PrintAgreesIff | kernel/fb.c:156-167 | on a coloured background a print keeps it unless it scrolls and ends inside the new row before its last column |
| Agreement.StepAgreesIff | kernel/fb.c:68-213 | for every routine, theme and width, on grids of at most 64 rows: agreement is kept if and only if the background is black or no black cell is left behind |
| Agreement.RunAgreesIff | kernel/fb.c:68-213 | for every run on any themes: the picture agrees after every call if and only if no call leaves a black cell on a coloured background |
| Transcript.StepShows | kernel/fb.c:78-213 | one routine on the grid is one edit of the transcript |
| Transcript.RunsShow | kernel/fb.c:78-213 | after every run on a grid of at most 64 rows screen_buf is the last fb_rows lines of the wrapped transcript and the cursor its end |
| Transcript.EnterShows | kernel/keyboard.c:50-53 | Enter ends the last line, or only opens the next one from below the bottom row |
| Transcript.EnterShowsIff | kernel/fb.c:140-143 | Enter ends the line as it should if and only if no wrap is pending below the grid, or the grid has one row |
| Transcript.TypeLineShows | kernel/fb.c:169-177 | println cuts its text at the right margin and starts a line |
| Transcript.RubOutShows | kernel/fb.c:78-86 | backspace removes the last character of the last line and never crosses a wrap |
| Transcript.PrintConcat | kernel/fb.c:156-167 | printing s and then t gives the same picture, shadow and cursor as printing s + t |
| Transcript.PrintWraps | kernel/fb.c:158-165 | character k of a printed text stands in line k / cols, column k % cols, with no gap |
| Transcript.WrapsNext | kernel/fb.c:161-164 | one more character continues a wrapped text |
| Transcript.WrapsRub | kernel/fb.c:78-86 | rubbing out away from column 0 drops exactly the last character of a wrapped text |
| Pixels.GridFits | kernel/fb.c:19-35 | every width gives at most 107 columns, and a height up to the width at most 53 rows |
| Pixels.GridIs | kernel/fb.c:31-35 | the glyph is a 96th of the width, at least 8; columns and rows are as many as fit, from 768 pixels on at least 96 columns |
| Pixels.GridInside | kernel/fb.c:31-35 | the text grid lies inside the screen |
| Pixels.SampleInside | kernel/fb.c:107-110 | nearest-neighbour sampling never indexes outside the glyph |
| Pixels.GlyphsAreWhole | kernel/fb.c:106-110 | and reaches every one of the 8 columns and 16 rows of the glyph |
| Pixels.GlyphPixel | kernel/fb.c:103-111 | a glyph's pixel is the foreground exactly where bit 7 - dx * 8 / glyph_w of font row dy * 16 / glyph_h is set |
| Pixels.RgbOf | kernel/fb.c:38-41 | taking a 24-bit colour apart with shifts and masks and packing the channels with shifts and ors gives it back |
| Pixels.RgbSum | kernel/fb.c:40 | the packed channels are the three bytes side by side |
| Pixels.StorePixel | kernel/fb.c:38-41 | a word store changes exactly one pixel of the raster |
| Pixels.PixelWord | kernel/fb.c:38-41 | pixel x of scan line y is word y * stride + x |
| Pixels.PaintedGlyph | kernel/fb.c:100-113 | a painted glyph is seen as the font's bits inside its cell, and nowhere else |
| Pixels.PaintedPictures | kernel/fb.c:57-63 | repainting one cell's pixels changes the picture in that cell only |
| Pixels.QuadCounts | kernel/fb.c:119-124 | the quadword counts cover exactly the grid's rows and stay inside the framebuffer |
| Pixels.WordsMovedScrolls | kernel/fb.c:119-125 | moving the words up moves every scan line up by one text row and blacks the last row |
| Pixels.ScrolledPictures | kernel/fb.c:118-125 | which moves cell (r+1, c) to (r, c) for every r and c |
| Pixels.ClearedPictures | kernel/fb.c:49-55 | a cleared raster shows every cell in the one colour |
| FrameBuffer.Display.constructor | kernel/kernel.c:29 | after the first clear pixels, shadow and cursor are those of an empty screen |
| FrameBuffer.Display.DrawPixel | kernel/fb.c:38-41 | exactly one pixel changes, to the packed colour |
| FrameBuffer.Display.FillPixels | kernel/fb.c:57-63 | exactly the pixels of one cell become the colour |
| FrameBuffer.Display.GlyphPixels | kernel/fb.c:100-113 | exactly the pixels of one cell change: to the foreground where the font has a set bit, top row and highest bit first, else to the background |
| FrameBuffer.Display.FbDrawChar | kernel/fb.c:100-116 | cell and shadow get the character, in any two colours |
| FrameBuffer.Display.FbDrawCursor | kernel/fb.c:68-71 | the cursor cell gets the foreground colour if it is in the grid |
| FrameBuffer.Display.FbEraseCursor | kernel/fb.c:73-76 | the cursor cell gets the background colour if it is in the grid |
| FrameBuffer.Display.CopyRows | kernel/fb.c:120-123 | the forward overlapping copy moves every word as if from a snapshot |
| FrameBuffer.Display.ZeroRow | kernel/fb.c:124-125 | exactly the words behind the copy become 0 |
| FrameBuffer.Display.ScrollPixels | kernel/fb.c:119-125 | the raster is scrolled by one text row |
| FrameBuffer.Display.ScrollShadow | kernel/fb.c:127-133 | the shadow is moved up one row in place, its last row blanked |
| FrameBuffer.Display.FbScroll | kernel/fb.c:118-136 | pixels, shadow and cursor scroll together |
| FrameBuffer.Display.PrintChar | kernel/fb.c:158-165 | one turn of the print loop, with scroll and wrap |
| FrameBuffer.Display.FbPrint | kernel/fb.c:156-167 | the whole print is its cell-level meaning |
| FrameBuffer.Display.WriteText | kernel/fb.c:149-154 | write_fb draws nothing from outside the grid, else until the text or the row ends |
| FrameBuffer.Display.FbPrintln | kernel/fb.c:169-177 | the whole println is its cell-level meaning |
| FrameBuffer.Display.FbBackspace | kernel/fb.c:78-86 | backspace is its cell-level meaning |
| FrameBuffer.Display.EnterLine | kernel/keyboard.c:51-53 | the cursor goes to column 0 of the next row, scrolling if that is below the grid |
| FrameBuffer.Display.FbClear | kernel/fb.c:49-55 | every cell shows the colour |
| FrameBuffer.Display.FbClearScreen | kernel/fb.c:187-196 | picture, shadow and cursor are blank and home |
| FrameBuffer.Display.RedrawScreen | kernel/fb.c:198-207 | every cell is painted from the shadow in the theme's colours |
| FrameBuffer.Display.FbUpdateTheme | kernel/fb.c:209-213 | both colours are stored and the new theme repaints everything |
| FrameBuffer.Display.FbUpdateCursor | kernel/fb.c:92-98 | the cursor is drawn or erased by the clock, in 32-bit arithmetic |
| FrameBuffer.CursorBlink | kernel/fb.c:92-98 | on for 30 ticks after a key, also across a wrap of the counter, and then for the first 50 of every 100 |
| FrameBuffer.Display.PerformAll | kernel/fb.c:68-213 | any sequence of routines on the real buffers is the cell-level run |
| Looks.PixelsAgreeIff | kernel/fb.c:198-207 | the pixels outside the cursor cell are those a redraw would paint if and only if every such cell looks as the redraw's |
| Looks.StepLooksRightIff | kernel/fb.c:68-213 | a call keeps that, for any font, if and only if the background is black or no black cell is left behind |
| Looks.AllRunsLookRightIff | kernel/fb.c:19-21 | with a font in which some character is visible, all black runs keep it if and only if the grid has at most 64 rows |
| FailingRuns.NavyLinesDisagree | kernel/fb.c:124-125 | on every grid of two columns or more, a navy theme and as many empty lines as rows disagree with the redraw |
| FailingRuns.EnterDoesNotEndTheLine | kernel/keyboard.c:51-53 | on every grid of two rows or more, a full last row and Enter do not show the line ended |
| KeyTable.RowKey | kernel/keyboard.c:6-20 | the keys of the four rows of the main block give the characters printed on them, with and without shift |
| KeyTable.OtherKeys | kernel/keyboard.c:6-20 | keypad star, space, and the keys without a character |
| KeyTable.RowCapitals | kernel/keyboard.c:6-20 | shift turns exactly the letters into capitals |
| KeyTable.KeysDiffer | kernel/keyboard.c:6-20 | no two keys of the main block share a character |
| Keyboard.DigitKeys | kernel/keyboard.c:68-72 | the digit row types 1234567890-= and with shift !@#$%^&*()_+ |
| Keyboard.TopKeys | kernel/keyboard.c:68-72 | the row below types qwertyuiop[] or QWERTYUIOP{} |
| Keyboard.HomeKeys | kernel/keyboard.c:68-72 | the home row, with its quotes and backquote or tilde |
| Keyboard.BottomKeys | kernel/keyboard.c:68-72 | the bottom row, from backslash to slash |
| Keyboard.SingleKeys | kernel/keyboard.c:68-72 | star and space, and a NUL from the keys without a character |
| Keyboard.ControlKeys | kernel/keyboard.c:39-67 | what shift, Enter, backspace and releases do to line and shift |
| Keyboard.StoppedKeys | kernel/keyboard.c:35-38 | a stopped keyboard changes nothing |
| Keyboard.ShownKeys | kernel/keyboard.c:39-67 | and which terminal routines they call, Enter ending in the prompt "> " and the cursor |
| Keyboard.ShownTyped | kernel/keyboard.c:68-72 | a typed key prints the character it appends, and nothing for a NUL |
| Keyboard.ShiftedHistory | kernel/keyboard.c:35-73 | shift, H, release, I: the line is "Hi" |
| Keyboard.Driver.constructor | kernel/keyboard.c:22-26 | no shift, not stopped, empty line |
| Keyboard.Driver.Handle | kernel/keyboard.c:35-73 | line, shift and screen after a scancode are those of the edit specification, and the shell gets the line's words, for every key that reads and writes in bounds |
| Keyboard.Driver.EnterKey | kernel/keyboard.c:50-60 | the line is terminated, emptied and handed to the shell, whose arguments are its words; cursor move, command output, prompt and cursor follow |
| Keyboard.Driver.BackspaceKey | kernel/keyboard.c:61-67 | the last character goes, and the display backs up, only if the line is not empty |
| Keyboard.Driver.TypedKey | kernel/keyboard.c:68-72 | the key's character is appended and printed |
| Keyboard.LineIsEditedHistory | kernel/keyboard.c:35-73 | after every run line is the fold of push, pop and empty over the scancodes heard, with shift as "the last shift event was a press" |
| Keyboard.LineOnScreen | kernel/keyboard.c:57-72 | while in step the cells from the prompt to the cursor spell the line, across wraps |
| Keyboard.TypedInStep | kernel/keyboard.c:68-72 | a key keeps line and screen in step if and only if it has a character |
| Keyboard.BackspaceInStep | kernel/keyboard.c:61-67 | backspace keeps them in step if and only if the cursor is not in column 0 |
| Keyboard.GreetingInStep | kernel/kernel.c:31-33 | the greeting and first prompt bring them in step |
| Keyboard.EventInStep | kernel/keyboard.c:35-73 | every comfortable event keeps them in step, Enter through any command that ends with a fresh line |
| Keyboard.KeysInStep | kernel/keyboard.c:35-73 | so after every run of comfortable events the screen shows the prompt and exactly the driver's line |
| FailingRuns.FirstTabBreaksStep | kernel/keyboard.c:68-72 | the Tab key at the first prompt: no transcript the screen shows ends in prompt and line |
| FailingRuns.FullRowBreaksStep | kernel/keyboard.c:61-67 | nor after letters to the end of the row and Backspace |
| Shell.Taken | kernel/shell.c:14-15 | what is copied is the text before the first NUL, cut at the bound |
| Shell.Tokenizer.Copy | kernel/shell.c:14-15 | the buffer holds that text and its NUL, in bounds |
| Shell.Tokenizer.SkipSpaces | kernel/shell.c:19 | stops at the next word or the end |
| Shell.Tokenizer.SkipWord | kernel/shell.c:22 | stops at the end of the run |
| Shell.Tokenizer.EndWord | kernel/shell.c:21-23 | the word becomes a C string of its own and the earlier arguments keep theirs |
| Shell.Tokenizer.NextArg | kernel/shell.c:18-24 | one turn of the loop cuts off the next argument, or finds only spaces left |
| Shell.Tokenizer.Cuts | kernel/shell.c:17-24 | the loop ends with the starts of the first runs, each cut off by a NUL |
| Shell.Tokenizer.Exec | kernel/shell.c:8-27 | argv points at the first 16 space-free runs of the first 255 characters, each a C string equal to its run |
| Shell.StartsAreTheFirstRuns | kernel/shell.c:18-24 | those are maximal runs in order, and all runs unless there are 16 |
| Shell.TokenizeUndoesJoin | kernel/shell.c:8-27 | up to 16 words joined by spaces within 255 characters come back as the arguments |
| Shell.ExecLine | kernel/shell.c:8-27 | on a terminated line the strings handed to the command are the line's words |
| Shell.WholeLineIff | kernel/shell.c:14-15 | the whole line is taken if and only if it holds no NUL and at most 255 characters |
| Numbers.ParseUndoesDecimal | kernel/memory.c:55-72 | decimal text parses back, has no leading zero but for 0 itself, and at most 10 digits below 2^32 |
| Numbers.DigitAt | kernel/memory.c:63-69 | digit k from the left is the one of weight 10^(count - 1 - k) |
| Numbers.TenDigitChars | kernel/memory.c:64 | the digits are the characters 0 to 9 |
| Numbers.ParseUndoesSigned | kernel/fb.c:226-235 | signed text parses back |
| Numbers.SignedIs | kernel/fb.c:230 | a minus sign before the absolute value |
| Numbers.TakeDigits | kernel/memory.c:63-66 | the digits fit the 11-byte temporary, low end first |
| Numbers.PutDigits | kernel/memory.c:63-69 | they come out in order, at their place in the buffer |
| Numbers.UintToStr | kernel/memory.c:55-72 | the buffer holds the decimal text of any uint32 |
| Numbers.IntToStr | kernel/fb.c:226-235 | the buffer holds the signed text of any int above INT_MIN, within 12 bytes |
| Numbers.ParseUndoesHex | kernel/memory.c:29-39 | hexadecimal text of enough digits parses back |
| Numbers.HexAt | kernel/memory.c:29-39 | hexadecimal digit k from the left is the one of weight 16^(width - 1 - k) |
| Numbers.HexDigits | kernel/memory.c:33-36 | the digits are 0-9 and A-F, or a-f in addresses |
| Numbers.UintToHex | kernel/memory.c:29-39 | the buffer holds 0x and eight upper-case digits that parse back to the value |
| Numbers.AddrToStr | kernel/fb.c:215-224 | the buffer holds 0x and sixteen lower-case digits that parse back to the address |
| Numbers.SizeTextFits | kernel/memory.c:41-53 | the size text fits 12 bytes for every byte count |
| Numbers.SizeTextIs | kernel/memory.c:41-53 | MB from 1 MiB on and KB below, rounded down, for the byte count modulo 2^42 |
| Numbers.SizeToStr | kernel/memory.c:41-53 | the buffer holds the count in MB from 1024 KB on, in KB below, of the 32-bit KB count |

## Left out

- PageBitmap.Pmm.Init: needs a map tag to hold at least one entry and at most 2^20 pages in all; the bitmap has no room for more and the code checks neither.
- PageBitmap.Pmm.Free: the caller must own the page, as kernel/pmm.c:57-60 trusts it to; double frees are not modelled.
- PageBitmap.MapIsUnderstoodIff: speaks of maps in address order with page-aligned entries; unordered, overlapping or unaligned entries are not classified.
- KernelHeap.Heap.Kfree: the pointer must be live; foreign pointers and double frees are not modelled.
- KernelHeap.Heap.HeapInit: the PMM must have a page other than page 0, which would read as a null list.
- KernelHeap.Heap.Absorb: one method stands for the stores of both merges of kfree, and CarveBlock for the three places that split and mark a block.
- Paging.IdentityMapping: the reload of cr3 and everything the processor caches are not modelled.
- Transcript.RunsShow: for grids of at most 64 rows, which every screen no taller than wide has; below row 64 screen_buf keeps nothing to compare.
- Keyboard.Driver.Handle: while not stopped, scancodes from 58 up that are neither shift, Enter nor backspace, and Enter or a typed key on a line of 256 characters, read or write out of bounds in the code and are excluded; what the command then shows is a parameter.
- Keyboard.KeysInStep: a command must end its output with a fresh line, as all of them do; which commands there are is not modelled.
- Keyboard.LineOnScreen: says nothing about rows of the line that have scrolled off the top.
- FrameBuffer.Display.WriteText: draws in the theme's colours; fb_print_color, fb_println_color and write_fb with other colours, and the exception handler that uses them, are not modelled beyond the single character.
- FrameBuffer.Display.DrawPixel: pixel offsets are unbounded integers, so a framebuffer of 4 GiB or more, where y * pitch wraps, is not modelled.
- Pixels.GridInside: only modes with 32 bits a pixel, a pitch that is a whole number of words and at least the width, and a grid of at least one cell.
- Looks.AllRunsLookRightIff: for fonts with a visible character; in an all-blank font text is lost without a trace.
- Numbers.IntToStr: not for INT_MIN, whose negation overflows in the code.
- fb_init's reading of the framebuffer tag: the mode is a parameter; finding the tag is the tag walk above.
- The font's contents: any 4096 bytes.
- The bit shift 1 << 31 of kernel/pmm.c:10 is taken as the unsigned mask it compiles to.
- Interrupts: handlers are atomic steps, and fb_cursor_activity's time stamp is a parameter of the cursor update.
- Command dispatch, help text and theme tables of shell_exec_args: a flat chain of comparisons.
- kernel/string.c, mem_get_lower and mem_get_upper: they would only add easy members.
- Port I/O, interrupt tables and devices (ata, pic, pit, beep, idt, boot/interrupts.s): register sequences without state to reason about.
