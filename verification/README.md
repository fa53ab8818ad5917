# VegaOS kernel: page tables, frame allocator and log console

A Dafny model of the parts of the VegaOS kernel that manage memory and print to the screen, with
proofs of what they keep over whole runs. `dafny verify dfyconfig.toml` checks everything.

What is modelled, bottom up:

- **Words** (`Bits`, `Align`). 64-bit words are bounded naturals; `&`, `|`, `<<` and `>>` are defined
  bit by bit and proved to act on each bit as their names say. `ALIGN_UP` and `ALIGN_DOWN` are the
  mask expressions of `sys/math.h`.
- **The frame allocator** (`Bitmap`, `MemoryMap`, `FrameAllocator`, `Pool`, `Allocations`). The class
  `Pmm` holds the memory map and the bitmap as arrays changed in place; its methods carve the bitmap
  out of the map, clear the managed bits, search, mark and free. `Pool` is the abstract bitmap those
  methods are proved against, and `Allocations` is about runs of allocations and frees.
- **Page tables** (`Descriptors`, `Tables`, `Trees`, `TreeShape`, `PageMap`, `Translations`, `Mmu`; when
  frames run out, `Exhaustion`, `DeadLinks`, `DeadPages`, `Astray`; for how many frames a run needs,
  `TableCount`; without marking, `Unmarked`). The class `Machine` has physical memory as one array of
  64-bit words and runs `next_level`, `aarch64_map_page`, `aarch64_unmap_page` and
  `aarch64_translate_vaddr` on it.
  Each method is proved equal to a function on the state (`Tables.Sys`), and the properties are proved
  about those functions. `Hardware` is the table walk of the processor (VMSAv8-64 with a 4 KB granule
  and 48-bit regions, chapter D8 of the Arm Architecture Reference Manual for A-profile) on byte addresses,
  written apart from the kernel's walk. `own`, a record of which root and indices lead to each table frame, is kept
  beside the memory for stating them; no computation reads it.
- **Both together** (`Kernel`, `Boot`). Any interleaving of page-table operations, allocations, frees,
  and stores by whoever holds an allocation, starting from what `init_bitmap` sets up.
- **The log console** (`Numerals`, `Picture`, `Console`, `Printk`, `ArgumentLists`, `Pixels`, `Formats`). The
  number printers with their in-place buffers, the format interpreter, and glyph drawing into a linear
  framebuffer. `Pixels` and `Formats` say in plain numbers and characters what ends up on the screen.

Points where the code is followed although it does not do what one would expect, and what is proved
about each:

- `pmm_alloc` does not mark the frames it returns as used, and nothing in the kernel calls
  `bitmap_set_bit`. The search is modelled as it is; marking is a step of its own (`Pmm.MarkUsed`,
  `Pool.Commit`), and every claim about held frames rests on it. `Machine.marks` says whether table
  frames are marked, and `MapPage` is proved either way. Without marking, which is the source,
  `Unmarked.RawRunIsRightExactly` says that a run leaves the right memory exactly when all its maps
  together need at most one new table, counted on the tables the run starts from. That is a property of the run and not of each map in it:
  `Unmarked.SecondMapWipesFirst` has two maps that each need one table, the second of which empties the
  table of the first.
- When no frame is free, `next_level` goes on with frame 0 (its own failure check can never fire) and
  leaves a dead link behind: a word that is present but leads to frame 0. The model does the same. A page
  is *alive* when its path meets no dead link, and *safe* when none is above the last inner table on its
  path. Mapping a safe page that is not alive does nothing but store a leaf in frame 0.
  `Astray.SafeIsExact` says that safe pages are exactly those whose mapping does no harm whatever lies
  outside the tables, and `Astray.SecondMapStrays` shows what mapping an unsafe page can do to another
  page. All translations after one operation, and all runs, are covered as long as only safe pages are
  mapped, for any number of free frames and of earlier failures: `Translations.TranslateAfterMap`,
  `DeadLinks.EveryRunRefinesAlways`, `Kernel.EveryRunIsGoodAlways`, `Boot.EveryRunFromBoot`. In their
  specification a map that lacks frames or meets a dead link does nothing. `DeadPages.DeadAfterMap` says
  exactly which pages a failure makes dead or unsafe. Runs that find all their frames are a special case;
  `TableCount.FramesSufficeExactly` says exactly which those are, and `Kernel.DemandSuffices` gives a
  sufficient number of free frames when allocations are mixed in. All this is about translations as the
  kernel computes them. The processor follows a dead link into frame 0 (`Hardware.DeadLinkIsFollowed`), so
  what it sees of a page behind one depends on what frame 0 holds; `Hardware.EveryRunIsSeen` covers all
  other pages.
- The root is chosen by bits 37 to 63 of the address, so two canonical addresses can share all indices.
  `Descriptors.CanonicalAliases` says exactly which pages have such a twin, and
  `Descriptors.RootMatchesHardware` for which addresses the hardware walks another root.
- In `pmm_alloc` 0 means both "no run started" and failure. `Pool.Search` has the exact answer for every
  bitmap; `Pool.SearchIsFirstFit` says precisely when it is first-fit.
- `get_bitmap_size` is evaluated again on every turn of the search, after the map was carved.
  `MemoryMap.SizeAfterCarving` says exactly when the answer is still the same; in the map of
  `FrameAllocator.TieAnswersNothing` it becomes 0 and no request is ever answered.
- The bitmap size rounds the number of frames down to whole bytes before rounding up to a page, so a map
  can have usable frames without a bit. `MemoryMap.CoveredFrames` says exactly when,
  `MemoryMap.InRangeExactly` when `init_bitmap` stays inside the bitmap all the same, and
  `MemoryMap.ShortExample` is a map on which it does not.
- The cursor and the pixel coordinates are 32-bit numbers and wrap around. `Picture.CellsAreApart` holds
  across the wrap for characters up to 2^28 places apart, and `Picture.CursorComesRound` shows that the
  bound is sharp.
- `vprintk` passes its argument list to `handle_format` by value and goes on using it. Where `va_list` is
  an array type the callee moves the caller's list on; where it is a structure, as on AArch64, the
  caller's copy stays, and every specifier reads the first argument. `Logger.advances` says which, and
  `VPrintk` is proved either way. `ArgumentLists.PrintsAlikeExactly`: the two agree for all arguments
  exactly for formats that take at most one.
- `dec2str` tests an unsigned number for being negative; that branch does not exist in the model.
- Table addresses are read through the higher-half offset but a new table is cleared through its raw
  address. The model has one memory, so the offset is the identity.

Assumptions on inputs. The memory map is the one the Limine boot protocol promises: usable entries are
page aligned, in order, apart from each other, not empty and above the first page; and the frames
`init_bitmap` clears have a bit. The roots are two distinct page-aligned frames outside the free frames.
`MapPage`, `UnmapPage` and `TranslateVaddr` need only that the words they touch are memory. The screen has
`pitch / 4 >= width` and its size fits 32 bits. Formats are C strings that do not end in `%` or in a colour
escape, the text printed is printable, and arguments fit the specifiers that read them. Font columns are
arbitrary.

## Model

| member | source | states |
|---|---|---|
| `Mmu.Machine.NextLevel` | sys/kernel/aarch64/mm/mmu.c:61-82 | one level: the linked table, 0, or a new zeroed table linked in place, as `Tables.GrowBy` and `Tables.Next` say, with marking or without; without `alloc` memory is not touched |
| `Mmu.Machine.MapPage` | sys/kernel/aarch64/mm/mmu.c:141-183 | whenever the tables it goes through are memory, the new memory, allocator and table record are those of `PageMap.Map`, or of `Unmarked.RawMap` when frames are not marked, with or without free frames and whatever dead links there are; well-formed trees stay so if it finds its frames, and usable ones stay usable if the page is safe |
| `Mmu.Machine.UnmapPage` | sys/kernel/aarch64/mm/mmu.c:186-220 | whenever the tables it goes through are memory, the new state is that of `PageMap.Unmap`; only memory is written; well-formed and usable trees stay so |
| `Mmu.Machine.TranslateVaddr` | sys/kernel/aarch64/mm/mmu.c:105-139 | whenever the tables it goes through are memory, the answer is `PageMap.Translate`, the root's extra mask included |
| `Mmu.Machine.constructor` | sys/kernel/aarch64/mm/mmu.c:105-220 | two zeroed roots start out well formed and represent the empty mapping |
| `Mmu.GetPagemapIsAligned` | sys/kernel/aarch64/mm/mmu.c:222-229 | whatever else the registers hold, both roots come out page aligned, below 2^48 and as the frames named by the address fields, and the address space number is the low 16 bits of its register |
| `Kernel.EveryRunIsGood` | sys/kernel/aarch64/mm/mmu.c:61-220 | over every interleaving of map, unmap, translate, allocate, free and stores by holders, translations are those of the finite map alone, no allocation overlaps another or a table, and no managed frame is lost |
| `Kernel.EveryRunIsGoodAlways` | sys/kernel/aarch64/mm/mmu.c:61-220 | the same for runs in which maps lack frames or meet dead links, as long as only safe pages are mapped: maps that are not served change nothing in the finite map, and tables and allocations stay apart |
| `Kernel.FramesMeanSafe` | sys/kernel/aarch64/mm/mmu.c:71-81 | a run that finds its frames maps only safe pages |
| `Kernel.DemandSuffices` | sys/kernel/aarch64/mm/mmu.c:170-173 | three free frames for each map plus the frames the allocations ask for are enough for any interleaving |
| `Kernel.HoldersAvoidTables` | sys/kernel/mm/pmm.c:147-185 | in every state such runs reach no held frame is a table or free |
| `Kernel.BootIsGood` | sys/kernel/mm/pmm.c:187-191 | the state after boot is such a state |
| `Boot.EveryRunStaysAvailable` | sys/kernel/mm/pmm.c:100-185 | over every run from what `Pmm.InitBitmap` ensures that maps only safe pages, every held frame, free frame and new table is usable memory outside the bitmap's storage |
| `Boot.EveryRunFromBoot` | sys/kernel/mm/pmm.c:100-191 | the same, and the answers of the finite map, for every such run that starts with what `Pmm.InitBitmap` leaves, two zeroed roots and nothing allocated |
| `PageMap.EveryRunRefines` | sys/kernel/aarch64/mm/mmu.c:105-220 | over every run that finds its frames, the table heap is the finite map from page key to descriptor: same outputs, well-formed trees, final heap represents the final map |
| `PageMap.MapView` | sys/kernel/aarch64/mm/mmu.c:141-183 | a map changes the stored word of exactly the mapped key, although it may add tables on shared paths |
| `PageMap.UnmapView` | sys/kernel/aarch64/mm/mmu.c:186-220 | an unmap clears the stored word of exactly the unmapped key |
| `PageMap.MapKeepsInv` | sys/kernel/aarch64/mm/mmu.c:141-183 | a map keeps both trees well formed, apart from each other and from free memory |
| `PageMap.UnmapKeepsInv` | sys/kernel/aarch64/mm/mmu.c:186-220 | so does an unmap |
| `Trees.DescendOk` | sys/kernel/aarch64/mm/mmu.c:170-173 | the three allocating levels end at the table of the path, own each new frame once, and change no lookup |
| `TreeShape.TablesFormTrees` | sys/kernel/aarch64/mm/mmu.c:61-82 | a frame is reached by a root and a path exactly when it is the table recorded there |
| `TreeShape.NoSharing` | sys/kernel/aarch64/mm/mmu.c:61-82 | no table is reached by two roots, two paths or two levels, so there is no cycle |
| `TreeShape.TablesAreNotFree` | sys/kernel/aarch64/mm/mmu.c:71-74 | no reachable table is a free frame |
| `Translations.TranslateAfterMap` | sys/kernel/aarch64/mm/mmu.c:141-183 | every translation after a map of a safe page, for any number of free frames and after any failures: for the mapped page the new frame if it is alive and its tables can be built and 0 otherwise, unchanged for every other page |
| `Translations.MapSucceedsExactly` | sys/kernel/aarch64/mm/mmu.c:71-81 | a map of a safe page establishes its translation exactly when the page is alive and enough frames are free, or the requested address field is 0 |
| `Translations.MapStores` | sys/kernel/aarch64/mm/mmu.c:145-180 | the word a served map of an aligned frame below 2^48 stores for its page, every bit by number: read-only (7) exactly without flag 1, user (6) exactly with flag 2, no execution (53, 54) exactly without flag 3, bits 12 to 47 the address, bits 0, 1 and 10 set, nothing else |
| `Translations.TranslateAfterUnmap` | sys/kernel/aarch64/mm/mmu.c:186-220 | an unmapped page translates to 0, every other page as before, whatever has failed |
| `Translations.UnmapUndoesMap` | sys/kernel/aarch64/mm/mmu.c:141-220 | map then unmap of a safe page restores every translation exactly when the page translated to nothing before, whether the map took effect or not |
| `Translations.MapTwice` | sys/kernel/aarch64/mm/mmu.c:141-183 | repeating a map that took effect changes no translation |
| `Translations.UnmapTwice` | sys/kernel/aarch64/mm/mmu.c:186-220 | repeating an unmap changes no translation |
| `Translations.MapAccounts` | sys/kernel/aarch64/mm/mmu.c:170-173 | a map of a safe page takes exactly the missing tables, at most three, from the free frames, or all that are left if those are fewer, or none if it meets a dead link; every frame taken becomes a table and no table is given up |
| `Translations.SecondMapIsFree` | sys/kernel/aarch64/mm/mmu.c:170-173 | a second map in the same 2 MB region takes no frame |
| `Translations.TablesNeverShrink` | sys/kernel/aarch64/mm/mmu.c:141-220 | over every run that maps only safe pages, whether maps take effect or not, tables are never lost, and tables plus free frames stay the same set |
| `Translations.ThreeFramesPerMap` | sys/kernel/aarch64/mm/mmu.c:170-173 | three free frames per map are enough for any run |
| `TableCount.FramesSufficeExactly` | sys/kernel/aarch64/mm/mmu.c:170-173 | a run finds all its frames exactly when as many are free as there are distinct absent tables, at the start, on the paths of the pages it maps; it then takes exactly that many |
| `Exhaustion.DescendFails` | sys/kernel/aarch64/mm/mmu.c:71-81 | a descent short of frames ends at frame 0 and leaves well-formed tables with one more dead link, and `Exhaustion.SettleOk` says that these show every lookup as before |
| `DeadLinks.MapViewAlways` | sys/kernel/aarch64/mm/mmu.c:141-183 | in tables with dead links, a map of a safe page changes the stored word of exactly its key if the page is alive and its tables can be built, and no word otherwise; the tables stay usable |
| `DeadLinks.UnmapViewAlways` | sys/kernel/aarch64/mm/mmu.c:186-220 | an unmap clears exactly its key, on any page |
| `DeadLinks.EveryRunRefinesAlways` | sys/kernel/aarch64/mm/mmu.c:105-220 | over every run that maps only safe pages, however many maps lack frames or meet a dead link, the heap is the finite map in which those do nothing: same outputs, final heap represents the final map |
| `DeadLinks.UsableIsMemory` | sys/kernel/aarch64/mm/mmu.c:61-220 | in usable tables what the three operations touch is memory, for a map if its page is safe |
| `DeadPages.DeadAfterMap` | sys/kernel/aarch64/mm/mmu.c:71-81 | after a map of a safe page exactly those pages are dead, or unsafe, that were before and, if it lacked frames, those that share its path up to the level that found no frame |
| `DeadPages.DeadAfterUnmap` | sys/kernel/aarch64/mm/mmu.c:186-220 | an unmap changes nothing about that |
| `Astray.SecondMapStrays` | sys/kernel/aarch64/mm/mmu.c:71-81 | an input on which a second map, of an unsafe page, gives an unrelated page its frame |
| `Astray.SafeIsExact` | sys/kernel/aarch64/mm/mmu.c:71-81 | whatever memory outside the tables holds, mapping a page leaves the tables usable, exactly when the page is safe; for a dead link in a root and equal level-1 and level-2 indices this needs some frame that is no table |
| `Unmarked.TablesAreShared` | sys/kernel/mm/pmm.c:154-166 | with the allocator as written, any two absent entries get the same frame, which is still free |
| `Unmarked.RawRunIsRightExactly` | sys/kernel/mm/pmm.c:154-166 | over every run from well-formed tables with enough free frames, the memory the source leaves is that of the marked run exactly when at most one distinct table is absent, at the start, on the paths of the pages it maps; then all outputs agree too |
| `Unmarked.SecondMapWipesFirst` | sys/kernel/aarch64/mm/mmu.c:71-74 | two pages under one level-2 table, each lacking one table: after the first map its translation is right, after the second it is 0 |
| `Unmarked.RawDescentIsRightExactly` | sys/kernel/mm/pmm.c:154-166 | from well-formed tables, one descent with the allocator as written writes the right memory exactly when at most one table is missing on its path |
| `Unmarked.RawMapIsMemory` | sys/kernel/aarch64/mm/mmu.c:71-81 | from well-formed tables a map without marking touches only memory |
| `Descriptors.LeafRoundTrip` | sys/kernel/aarch64/mm/mmu.c:145-180 | address, write, execute and user rights all read back from a stored leaf |
| `Descriptors.LeafIs` | sys/kernel/include/mm/vmm.h:47-50 | every bit of a leaf by number, from the bits of the address and of the flag word |
| `Descriptors.LeafAddress` | sys/kernel/aarch64/mm/mmu.c:175-180 | for every physical address and flag word the attribute bits leave the address field alone |
| `Descriptors.AddressMask` | sys/kernel/include/aarch64/mm/mmu.h:49 | the address mask takes bits 12 to 47, that is, 4096 times the frame number |
| `Descriptors.IndicesAre` | sys/kernel/aarch64/mm/mmu.c:165-168 | the four indices are address bits 39-47, 30-38, 21-29 and 12-20 |
| `Descriptors.TtbrIndexIs` | sys/kernel/aarch64/mm/mmu.c:163 | the second root is used exactly from 2^37 on |
| `Descriptors.RootMatchesHardware` | sys/kernel/aarch64/mm/mmu.c:253-254 | with 48-bit regions the hardware walks the same root, except exactly for lower-half addresses from 2^37 on |
| `Hardware.SeesView` | sys/kernel/aarch64/mm/mmu.c:61-82 | on any page that meets no dead link, below 2^37 or in the upper half, the walk of the processor ends at the word the kernel's tables show: a page if that word is a valid page descriptor, a fault otherwise |
| `Hardware.MapIsSeen` | sys/kernel/aarch64/mm/mmu.c:141-183 | after a map that takes effect the processor reaches `phys` plus the page offset with exactly the write, user and execute rights asked for, at every address of the page, and sees every other page as before |
| `Hardware.UnmapIsSeen` | sys/kernel/aarch64/mm/mmu.c:186-220 | after an unmap every address of the page faults, and every other page is seen as before |
| `Hardware.EveryRunIsSeen` | sys/kernel/aarch64/mm/mmu.c:141-220 | over every interleaving that maps only safe pages, whatever lacks frames, the processor reaches mapped pages through exactly the words of the finite map and faults on every other page that is not behind a dead link |
| `Hardware.DeadLinkIsFollowed` | sys/kernel/aarch64/mm/mmu.c:71-81 | where the kernel finds nothing behind a dead link the processor goes on in frame 0 |
| `Descriptors.SameKey` | sys/kernel/aarch64/mm/mmu.c:163-168 | two addresses share root and indices exactly when their 36-bit page numbers agree and both or neither are below 2^37 |
| `Descriptors.KeyIsInjective` | sys/kernel/aarch64/mm/mmu.c:163-168 | on the first 2^37 bytes and the upper half, exactly the addresses of one page share root and indices |
| `Descriptors.CanonicalAliases` | sys/kernel/aarch64/mm/mmu.c:163-168 | a canonical page has a twin with the same root and indices exactly when it lies at or above 2^37 in its half |
| `Descriptors.AliasExample` | sys/kernel/aarch64/mm/mmu.c:163-168 | the lowest pair of twins |
| `FrameAllocator.Pmm.FindHighestEntry` | sys/kernel/mm/pmm.c:61-84 | the entry is the one `MemoryMap.Highest` picks |
| `FrameAllocator.Pmm.GetBitmapSize` | sys/kernel/mm/pmm.c:86-98 | the size for the end of the highest usable entry; none when the code panics |
| `FrameAllocator.Pmm.InitBitmap` | sys/kernel/mm/pmm.c:100-144 | when it succeeds, a bit is clear exactly for the frames of usable entries, after carving, that are at least as long as the bitmap; the hint is the lowest clear bit, and 0 only when none is clear; the outcomes without memory or room are exact |
| `FrameAllocator.Pmm.Alloc` | sys/kernel/mm/pmm.c:147-176 | the answer is 4096 times `Pool.Search` for every bitmap and request, nothing changes, and an answered run ends within the bits of the bitmap size of the map as it now is, but for the run answered one place too high when the run at frame 0 is free |
| `FrameAllocator.TieAnswersNothing` | sys/kernel/mm/pmm.c:152 | in the map whose size becomes 0 after carving, every request is answered with 0 |
| `FrameAllocator.Pmm.MarkUsed` | sys/kernel/utils/bitmap.c:32-35 | exactly the bits of the run become used |
| `FrameAllocator.Pmm.Free` | sys/kernel/mm/pmm.c:178-185 | exactly the bits of the run become free |
| `FrameAllocator.BitmapIsReserved` | sys/kernel/mm/pmm.c:115-142 | the bitmap's own frames are never managed, and every managed frame lies in a usable entry |
| `FrameAllocator.ManagedExactly` | sys/kernel/mm/pmm.c:108-142 | in terms of the map before carving: managed are exactly the frames of usable entries at least as long as the bitmap, where the entry holding the bitmap counts from behind it |
| `Bitmap.SetBit` | sys/kernel/utils/bitmap.c:32-35 | one bit of the array becomes set, all others stay; its byte grows by 2 to the power of the bit number modulo 8, unless it was set |
| `Bitmap.UnsetBit` | sys/kernel/utils/bitmap.c:37-40 | one bit becomes clear, all others stay; its byte loses that power of two if it was set |
| `Bitmap.TestBitmap` | sys/kernel/utils/bitmap.c:42-45 | the answer is that bit |
| `MemoryMap.HighestIs` | sys/kernel/mm/pmm.c:61-84 | the first usable entry with the greatest base, or none if nothing is usable |
| `MemoryMap.HighestBaseHasHighestEnd` | sys/kernel/mm/pmm.c:86-95 | in an ordered map no usable entry ends above the one with the highest base |
| `MemoryMap.HighestAfterCarving` | sys/kernel/mm/pmm.c:115-122 | carving keeps the highest end except in a tie, where the emptied entry is taken for the highest |
| `MemoryMap.SizeAfterCarving` | sys/kernel/mm/pmm.c:86-122 | the bitmap size stays the same exactly when there is no tie or the two ends round alike; it never grows |
| `MemoryMap.TieExample` | sys/kernel/mm/pmm.c:79-80 | a map in which the size becomes 0 after carving |
| `MemoryMap.CoverageIsExact` | sys/kernel/mm/pmm.c:95-96 | the bitmap has a bit for each of a number of frames exactly when that number is divisible by 8 or its eighth is not a multiple of 4096 |
| `MemoryMap.CoveredFrames` | sys/kernel/mm/pmm.c:95-96 | every frame of usable memory has a bit exactly when the map passes that check on its highest end |
| `MemoryMap.InRangeExactly` | sys/kernel/mm/pmm.c:128-142 | every bit `init_bitmap` clears is in range exactly when the entries it hands out end in range: the condition `Pmm.InitBitmap` asks for |
| `MemoryMap.CoveredIsInRange` | sys/kernel/mm/pmm.c:128-142 | maps in which every frame has a bit meet that condition |
| `MemoryMap.ShortExample` | sys/kernel/mm/pmm.c:95-142 | a map in which bit 0x8000 of a bitmap of 0x8000 bits is cleared |
| `MemoryMap.HarmlessExample` | sys/kernel/mm/pmm.c:95-142 | a map with a frame that has no bit in which every cleared bit is in range |
| `Align.AlignUpIsLeast` | sys/kernel/include/sys/math.h:34 | for a power of two, the least multiple not below the argument |
| `Align.AlignDownIsGreatest` | sys/kernel/include/sys/math.h:33 | for a power of two, the greatest multiple not above the argument |
| `Pool.SearchIsFirstFit` | sys/kernel/mm/pmm.c:147-176 | the search answers the first free run of the requested length (1 for a request of 0) from the hint on, or 0 if there is none, except exactly when it starts at frame 0 and a run there is free; then it answers 1, or 0 for a single frame |
| `Pool.FrameZeroExample` | sys/kernel/mm/pmm.c:156-166 | with frame 0 free a run is answered that is not free |
| `Pool.HintIsHarmless` | sys/kernel/mm/pmm.c:45-54 | with nothing free below the hint, searching from it equals searching from frame 0 |
| `Allocations.EveryRunIsAccounted` | sys/kernel/mm/pmm.c:147-185 | over every run of allocations with marking and matching frees, live allocations are pairwise disjoint and managed, and free plus live is always the managed set |
| `Numerals.Hex2Str` | sys/kernel/core/printk.c:36-82 | the buffer holds the hexadecimal string and its terminator, in at most 19 bytes, and nothing else changed |
| `Numerals.Dec2Str` | sys/kernel/core/printk.c:84-123 | the buffer holds the decimal string and its terminator, in at most 21 bytes, and nothing else changed |
| `Numerals.ReverseInPlace` | sys/kernel/core/printk.c:72-78 | the swapping loop reverses the first bytes and leaves the rest |
| `Numerals.ParseNumeral` | sys/kernel/core/printk.c:100-105 | reading a printed number gives it back; no leading zero except in "0" |
| `Numerals.NumeralParse` | sys/kernel/core/printk.c:100-105 | every numeral without leading zeros is what its value prints as |
| `Numerals.HexRoundTrip` | sys/kernel/core/printk.c:51-67 | the string is "0x" and at least two digits, and reads back as the number |
| `Numerals.HexIsUnique` | sys/kernel/core/printk.c:51-67 | it is the only such string |
| `Printk.Logger.VPrintk` | sys/kernel/core/printk.c:165-190 | the framebuffer and cursor are those after writing the rendering of the format's tokens, in the reading of the argument list that the target has |
| `Printk.Logger.HandleFormat` | sys/kernel/core/printk.c:146-163 | one argument is printed for s, c, x and d, none for any other specifier; the caller's list moves on by it where `va_list` is an array type and stays where it is a structure |
| `ArgumentLists.PrintsAlikeExactly` | sys/kernel/core/printk.c:146-190 | for all arguments that fit a format the two readings are defined and print the same, exactly when the format takes at most one argument |
| `ArgumentLists.TwoNumbers` | sys/kernel/core/printk.c:178-182 | `%d%d` with 1 and 2 prints 12 in one reading and 11 in the other |
| `Formats.PlainPrintsItself` | sys/kernel/core/printk.c:165-190 | text without NUL, `%` or escape prints itself, in grey or in the colour of the escape before it, each of the six codes given by its number and any other code grey |
| `Formats.PrintsHex` | sys/kernel/core/printk.c:156-157 | `%x` prints a string of the form "0x" and at least two digits that reads back as the argument |
| `Formats.PrintsDecimal` | sys/kernel/core/printk.c:159-160 | `%d` prints the numeral without leading zeros that reads back as the argument |
| `Formats.PrintsString` | sys/kernel/core/printk.c:150-151 | `%s` prints its argument up to the first NUL |
| `Formats.PrintsCharacter` | sys/kernel/core/printk.c:153-154 | `%c` prints the one character, and nothing for NUL |
| `Formats.PrintsNothing` | sys/kernel/core/printk.c:148-162 | every other specifier prints nothing, whatever the arguments |
| `Formats.EscapeStartsAfresh` | sys/kernel/core/printk.c:171-176 | what follows a colour escape prints as if it stood alone, with the arguments not yet taken |
| `Formats.SameColorConcat` | sys/kernel/core/printk.c:169-189 | within one colour two formats put together print one after the other, the second with the arguments the first left |
| `Formats.GreyByDefault` | sys/kernel/core/printk.c:127-131 | a format prints as it does after an explicit escape to grey |
| `Formats.TakenIs` | sys/kernel/core/printk.c:146-163 | plain text takes no argument, each of s, c, x and d one, any other specifier none, and formats put together take the sum |
| `Printk.TokensRoundTrip` | sys/kernel/core/printk.c:169-189 | the tokens of a format spell the format: no character is lost or read twice |
| `Printk.UnparseRoundTrip` | sys/kernel/core/printk.c:169-189 | and every list of tokens is read back from its spelling |
| `Console.Screen.PutPix` | sys/kernel/dev/video/fb.c:35-45 | one visible pixel is stored, anything outside the screen is refused and nothing stored |
| `Console.IndexIsInjective` | sys/kernel/dev/video/fb.c:29-33 | no two visible pixels share a word |
| `Console.Screen.PutCh` | sys/kernel/pty/core.c:38-49 | exactly the visible pixels of the cell take the glyph's colours, for all 32-bit coordinates |
| `Console.Screen.PutStr` | sys/kernel/pty/core.c:57-73 | framebuffer and cursor are those after writing the characters up to the terminator |
| `Picture.PixelOfCharacter` | sys/kernel/pty/core.c:38-73 | a visible pixel shows the glyph bit of the last character whose cell covers it, in that character's colour |
| `Picture.PixelOfShortText` | sys/kernel/pty/core.c:38-73 | in a text of at most 2^28 + 1 characters it shows whatever character covers it |
| `Picture.PixelElsewhere` | sys/kernel/pty/core.c:38-73 | every other word of the framebuffer is unchanged |
| `Pixels.CharacterShows` | sys/kernel/pty/core.c:38-49 | for each dx < 9 and dy < 16, the word of the visible pixel dx and dy on from where a character of a text stands is the text colour if bit dy of column 9 * (c - 32) + dx of the font is set, and 0 otherwise |
| `Pixels.OneCharacter` | sys/kernel/pty/core.c:38-49 | the same for a single character written anywhere |
| `Pixels.OtherwiseUnchanged` | sys/kernel/pty/core.c:38-49 | every word that is no pixel of those 9 by 16 cells keeps its value |
| `Pixels.LineIs` | sys/kernel/pty/core.c:51-55 | each newline moves the cursor 16 pixels down, modulo 2^32, and nothing else moves it down |
| `Pixels.ColumnIs` | sys/kernel/pty/core.c:57-73 | each other character moves it 9 pixels to the right, modulo 2^32 |
| `Pixels.ColumnAfterNewline` | sys/kernel/pty/core.c:51-55 | after a newline the column counts from 0, wherever the line before ended |
| `Picture.CellsAreApart` | sys/kernel/pty/core.c:51-73 | the cells of characters at most 2^28 places apart share no pixel, wherever the 32-bit cursor starts |
| `Picture.CursorComesRound` | sys/kernel/pty/core.c:51-55 | one place further the cursor can be back where it was |
| `Picture.WriteConcat` | sys/kernel/pty/core.c:57-73 | writing one text and then another is writing their concatenation |

## Left out

- Cache and TLB maintenance, system-register access and `aarch64_mmu_init`: inline assembly without state to speak about; register values are parameters.
- In `Hardware` the rights are those of the page descriptor alone: the links the kernel writes have no hierarchical attribute bits. Memory types, shareability and address space numbers are not modelled.
- Huge pages and block descriptors: `pagesize` is never read, and the trees contain no block entries.
- The bitmap is an array of its own and not a window into `Machine.mem`; that its frames are never handed out is `FrameAllocator.BitmapIsReserved`.
- `memset` of a frame clears 512 words, not 4096 bytes; `memset` of the bitmap is the initial value of the new array.
- Maps of unsafe pages: `Machine.MapPage` computes exactly what they do, and `Astray.SecondMapStrays` shows what can go wrong; no run theorem includes them.
- A `va_list` passed by value is read as a copy where it is a structure; the C standard itself leaves the caller's list indeterminate after the call.
- The message `aarch64_translate_vaddr` prints when the first level is missing, and the log lines of `init_bitmap`.
- Characters outside the font: `pty_putch` reads beyond the glyph table for them; the text is assumed printable.
- `fb_clear`, `panic`, interrupt and descriptor tables, boot entry and board detection: plumbing or easy members.
- Concurrency: nothing in the modelled code takes a lock or runs on more than one processor.
