# FurOS64 in Dafny

FurOS64 is a small x86-64 operating system: a UEFI boot stub builds four-level page tables,
maps the kernel into the higher half and jumps to it. This project models the parts of it that
carry the weight and proves what they do:

- **Page tables** (`BitForms`, `PagingSpec`, `PagingProofs`, `PagingTheorems`, `PagingRuns`,
  `Ranges`, `BootStub`, `Boot`). `GetTable`, `MMap` and `MakeTempRegion` edit 512-entry tables in
  physical memory. The tables are shown to form a tree, and the tree to be a finite map from
  pages to mappings as the processor reads it (Intel SDM Volume 3A, section 4.5). On top of that
  stand the mapping loops of `efi_main`, their cost in pages, and the whole address space at the
  entry of the kernel, also for runs in which the firmware refuses pages.
- **The memory map scan** (`MemoryMapScan`) that sizes the frame map.
- **Kernel memory** (`FrameMap`, `TempWindow`): the frame bitmap as a set, and the window through
  which the kernel edits the page table that maps the window.
- **The formatter** behind `Print` (`FormatSpec`, `FormatGrammar`, `Printer`): format parser, field
  padding, carriage returns and the flushed buffer, against a pure formatting function, and that
  function against the documented shape of a directive: flags, width, field width, letter.
- **The list macros** (`LinkList`): pointer surgery against sequence operations.
- **The terminal** (`Numerals`, `Terminal`): number printing and the wrapping cursor.

Code that changes memory, fields or a buffer is imperative here as well: the classes
`BootStub.Machine`, `FrameMap.FrameManager`, `TempWindow.KernelMemory`, `Printer.PrintState` and
`Terminal.Console`, and the methods of `LinkList`. Each method is proved against a function of
the old state, and the lemmas are about that function. `Bits` defines C's `&`, `|` and `>>` on
naturals; the imperative code writes the masks and shifts of the source, and `BitForms` ties them
to the arithmetic that the proofs use.

The assumptions of the theorems about the boot phase can be met: for every layout that fits there
is a firmware with which no call fails (`Boot.BootCanSucceed`), and the state it leads to meets what
the theorems about the kernel's window assume (`TempWindow.BootOpensTheWindow`).

Check everything with `dafny verify dfyconfig.toml` in this directory.

## Where the code does not do what one would expect

Each of these is a proved statement about the code as it is.

- The descriptor scan compares with a strict `>` and so skips a descriptor that starts where the
  last taken one ended. Whatever the order of the map, it finds the highest end exactly when the
  number of joints below the highest descriptor is even (`MemoryMapScan.ScanOfAnyMap`); on a
  sorted map these are the joints of the gapless run at its end (`MemoryMapScan.ScanOfSortedMap`).
  `ScanSkipsATouchingDescriptor` and `ScanSkipsInAnUnsortedMap` are concrete maps. The frame map
  covers the described memory exactly if, in addition, the highest end is a multiple of 0x8000
  (`FrameMap.MapCoversMemory`).
- `TempMap` never advances its index: in an open window it returns exactly when slot 1 is free
  (`TempWindow.OpenOutcomes`). After boot the second call scans for ever, with slots 2 to 511 all
  free (`TempWindow.SecondTempMapHangs`). The frame is mapped 0x1000 bytes into the window, but the
  pointer it returns is 0x8000 bytes in (`TempWindow.ReturnedPointerIsSlotEight`). Right after
  boot that pointer faults (`TempWindow.FirstPointerFaults`).
- `FreeTempMap` undoes `TempMap` for that pointer (`TempWindow.MapThenFree`); given the address of
  the page that was really mapped it unmaps the window itself (`TempWindow.FreeByPageAddress`).
- `AllocFrame` takes a byte address, `FreeFrame` a frame number. Handing the address to both
  restores the map for address 0 only (`FrameMap.FreeByAddress`).
- `SwapListEntries` tears the ring when the entries coincide or already stand in the wanted order
  (`LinkList.SwapListEntries`).
- The format flag `-` is documented as "justify on left". It puts the text first exactly when the
  text fills the width or consists of pad characters (`FormatSpec.MinusJustifiesLeft`): it only
  moves the blanks of a field width, and without one above width and text it changes nothing
  (`FormatSpec.LeftJustifyNeedsAFieldWidth`). `%-5d` prints what `%5d` prints, with the number on
  the right (`FormatSpec.MinusFiveD`).
- Lower-case attribute flags are documented as "for this field only". With a single one every
  attribute but 0 is given back; 0, black on black, is taken for no attribute, so that after `%hx`
  the highlight stays on (`FormatSpec.OneFieldAttributeSticksAtZero`). In general the attribute is
  given back exactly if there is no such flag, or the attribute in force before the last flag, or
  that of the last flag in case the former is 0, equals it (`FormatSpec.RestoredExactly`). After
  `%hex` the highlight stays whatever the attribute was (`FormatSpec.TwoFieldAttributesStick`).
- For `%p` the source computes `sizeof(void *) == (8 ? 16 : 8) + 2`, which is 0, as the width; the
  model has that 0.

## Model

| member | source | states |
|---|---|---|
| BitForms.IndexForms | efi/src/EFI_STUB.c:228-231 | the four table indices are the shifts and masks of the source |
| BitForms.EntryForms | efi/src/EFI_STUB.c:208-209 | present bit, address field and `\|= 3` of an entry are the source's bit operations, for every 64-bit word |
| BitForms.StatusForm | efi/src/EFI_STUB.c:237-240 | a status is an error if and only if its sign bit is set |
| BitForms.LeafEntryForm | efi/src/EFI_STUB.c:264 | the page-table entry is the source's mask-and-or expression |
| PagingProofs.IndicesDetermineThePage | efi/src/EFI_STUB.c:228-231 | two addresses have the same four indices if and only if they agree in bits 12 to 47 |
| PagingProofs.WalkReadsTheTree | efi/src/EFI_STUB.c:205-267 | on a tree of tables the processor's walk, large pages and write permission included, yields the leaf entry of the page |
| PagingProofs.DescendKeeps | efi/src/EFI_STUB.c:205-222 | entering one level keeps the tree and every leaf entry, adds at most one table, and reports an error only without touching memory |
| PagingProofs.PathKeeps | efi/src/EFI_STUB.c:233-261 | the three descents keep the tree and every leaf entry wherever they fail, and end at the page table of the address otherwise |
| PagingProofs.PathMakesTheMissing | efi/src/EFI_STUB.c:233-261 | a call that gets through makes exactly the missing tables of its path, one that fails strictly fewer |
| PagingProofs.EnterKeeps | efi/src/EFI_STUB.c:224-312 | a failed call changes no leaf entry, a successful one exactly the entry of its own page, and the pages taken are the tables added |
| PagingTheorems.WalkIsTheMap | efi/src/EFI_STUB.c:224-267 | for any contents of memory, large pages included, the processor's translation of any address is a lookup of its page number in one finite map |
| PagingTheorems.MMapRefines | efi/src/EFI_STUB.c:224-267 | from any well-formed tables MMap is one update of the map of translations, or, exactly when it reports an error, none; the tables stay a tree |
| PagingTheorems.MakeTempRegionRefines | efi/src/EFI_STUB.c:269-312 | MakeTempRegion makes the address translate to the very page table that serves it and changes nothing else; on error nothing changes |
| PagingTheorems.WindowStore | src/MemoryManagment/physical.c:50-62 | a store of word i through a self-mapped page changes the translation of slot i of that table and no other, for every address |
| PagingTheorems.WindowLoad | src/MemoryManagment/physical.c:50-62 | word i read through a self-mapped page is the entry that translates slot i |
| PagingTheorems.TreeUnique | efi/src/EFI_STUB.c:205-267 | memory determines the tree of tables |
| PagingTheorems.WalkDescends | efi/src/EFI_STUB.c:233-261 | the levels that the walk of an address reaches are the tables that exist on its path |
| PagingRuns.RunRefines | efi/src/EFI_STUB.c:418-488 | over every run, failures included, the tables stay a tree, the translations are the log of successful writes applied in order, and every page taken is a table of the tree |
| PagingRuns.RunFromFreshRoot | efi/src/EFI_STUB.c:205-312 | every run from a zeroed root ends in a tree, and the pages taken are as many as the present entries above the last level |
| PagingRuns.CallReports | efi/src/EFI_STUB.c:212-261 | a failed call reports the status of the very refusal it met, which follows the grants it used, or that no page was left; granted pages become the missing tables of the path from the top |
| PagingRuns.RunKeepsFrames | efi/src/EFI_STUB.c:205-312 | whatever fails, frames that are in use and are no tables keep every word over a run |
| PagingRuns.RunSucceeds | efi/src/EFI_STUB.c:205-312 | a run succeeds if and only if the firmware grants the first k requests, where k counts the tables on the paths of all its operations that do not exist yet, and it takes exactly these |
| PagingRuns.FreshRunSucceeds | efi/src/EFI_STUB.c:205-312 | from a zeroed root, k is the number of all tables below the root on the paths of the run |
| PagingRuns.OrderDoesNotMatter | efi/src/EFI_STUB.c:205-312 | two runs get through one after the other if and only if they do in the other order |
| PagingRuns.EntriesAreTables | efi/src/EFI_STUB.c:205-222 | present entries above the last level and tables below the root correspond one to one |
| Ranges.RangeRuns | efi/src/EFI_STUB.c:425-441 | a loop without failures maps one page per round |
| Ranges.RoundsCover | efi/src/EFI_STUB.c:425-441 | the rounds of a loop cover its n bytes and reach less than a page further |
| Ranges.RangeLookup | efi/src/EFI_STUB.c:425-441 | closed form of a loop: the page d places after the first is mapped d pages after the first frame, no other page changes, wrap-around included |
| Ranges.RangeTranslates | efi/src/EFI_STUB.c:418-441 | every byte of the rounded-up range translates to the byte at the same offset if and only if the physical start is page-aligned |
| Ranges.RangeWithFailures | efi/src/EFI_STUB.c:418-441 | whatever fails, pages outside the range are untouched and pages inside have their old mapping or the intended one |
| Ranges.RangesCommute | efi/src/EFI_STUB.c:418-441 | loops over disjoint ranges get through in one order if and only if they do in the other, and then give the same translations |
| Ranges.CounterReaches | efi/src/EFI_STUB.c:418-441 | the 64-bit counter of a mapping loop reaches its bound if and only if the bound is at most 2^64 - 0x1000 |
| Ranges.RangeCost | efi/src/EFI_STUB.c:205-264 | from a zeroed root, mapping the pages a..b takes the sum over the three levels of (b/512^k - a/512^k + 1) pages from the firmware |
| Ranges.CallCost | efi/src/EFI_STUB.c:212-261 | one call takes as many pages as there are levels its walk did not reach, fewer when it fails |
| BootStub.Machine.AllocatePages | efi/src/EFI_STUB.c:212-213 | one answer of the firmware is consumed; a granted page holds what it happened to contain |
| BootStub.Machine.ClearPage | efi/src/EFI_STUB.c:217-219 | clearing 0x1000 bytes one at a time leaves 512 zero words and no other page changed |
| BootStub.Machine.GetTable | efi/src/EFI_STUB.c:205-222 | returns the present table, or a new zeroed one entered without the present bit, or the firmware's own status with the tables unchanged |
| BootStub.Machine.FindPageTable | efi/src/EFI_STUB.c:228-261 | in-place descent through three levels; every table it writes is a frame in use |
| BootStub.Machine.MMap | efi/src/EFI_STUB.c:224-267 | the in-place code reaches the specified state and performs one map update or none |
| BootStub.Machine.MakeTempRegion | efi/src/EFI_STUB.c:269-312 | the in-place code reaches the specified state and maps the serving page table at the address |
| BootStub.Machine.MapRange | efi/src/EFI_STUB.c:425-429 | a mapping loop is the run of one MMap per page of the rounded-up size |
| Boot.LayoutInOrder | efi/src/EFI_STUB.c:372-488 | below an explicit bound, image, kernel, frame map, framebuffer, window and stack follow one another without overlap and the window is aligned to 2 MiB |
| Boot.RegionsDisjoint | efi/src/EFI_STUB.c:424-488 | no page belongs to two regions, and no slot of the window to any |
| Boot.AddressSpace | efi/src/EFI_STUB.c:418-488 | when no call failed, the final address space is exactly the five regions and the window: every other page faults |
| Boot.LayoutInNumbers | efi/src/EFI_STUB.c:418-475 | byte for byte and with flags: image, kernel, stack, frame map and framebuffer at the addresses of the source, with bit 4 set for kernel, stack and frame map only |
| Boot.NothingElseMapped | efi/src/EFI_STUB.c:418-488 | which page numbers are mapped at the end, as explicit intervals in the sizes of the source, and one page for the window |
| Boot.WindowPlace | efi/src/EFI_STUB.c:477-486 | the window stands at the first multiple of 2 MiB above the end of the framebuffer |
| Boot.BootCanSucceed | efi/src/EFI_STUB.c:418-488 | for every layout that fits there is a firmware with which no call of the mapping phase fails |
| Boot.BootSucceeds | efi/src/EFI_STUB.c:418-488 | no call of the mapping phase fails if and only if the firmware grants the first k requests, where k is the number of tables that serve some page of a region or the window; exactly these are taken |
| Boot.NoStrayMappings | efi/src/EFI_STUB.c:418-488 | whatever calls failed, no page ends with a mapping that the layout does not give it |
| Boot.RegionTranslates | efi/src/EFI_STUB.c:418-475 | at kernel entry, offset o of a region translates to offset o of its physical range if and only if that range starts at a page |
| Boot.WindowIsOpen | efi/src/EFI_STUB.c:480-486 | the window handed to the kernel maps its own page table for writing and its other 511 slots are free |
| Boot.MapRegions | efi/src/EFI_STUB.c:418-477 | the five loops of efi_main, with their running offset, perform the specified run |
| Boot.MapAll | efi/src/EFI_STUB.c:418-487 | the mapping part of efi_main performs the specified run and yields the window's address |
| MemoryMapScan.Scan | efi/src/EFI_STUB.c:445-453 | the loop computes the scan of the whole map |
| MemoryMapScan.ScanIsTheLastTaken | efi/src/EFI_STUB.c:445-453 | for every map, ends that wrap included, the result is the end of a descriptor that starts above what was found before it and has no start above its end behind it, or 0 if all start at 0 |
| MemoryMapScan.ScanReachesEveryStart | efi/src/EFI_STUB.c:445-453 | in any order, the result is at or above every start, and 0 or the end of a descriptor |
| MemoryMapScan.ScanOfSeparateDescriptors | efi/src/EFI_STUB.c:445-453 | in any order, when no two descriptors touch, the result is the highest end |
| MemoryMapScan.ScanOfAnyMap | efi/src/EFI_STUB.c:445-453 | in any order, for descriptors that do not overlap, the result is the highest end if and only if the number of joints that the scan meets below the highest descriptor is even, else the start of that descriptor |
| MemoryMapScan.ScanOfSortedMap | efi/src/EFI_STUB.c:445-453 | on sorted maps, the result is the end of memory if and only if the number of joints below the last descriptor is even, else the start of the last descriptor |
| MemoryMapScan.EndOfMemoryIsHighest | efi/src/EFI_STUB.c:445-453 | on sorted maps the end of the last descriptor is the highest end |
| MemoryMapScan.ScanSkipsATouchingDescriptor | efi/src/EFI_STUB.c:450-452 | a map of two touching descriptors whose second one is missed |
| MemoryMapScan.ScanSkipsInAnUnsortedMap | efi/src/EFI_STUB.c:450-452 | an unsorted map of three descriptors whose highest one is missed |
| FrameMap.FrameManager.AllocFrame | src/MemoryManagment/physical.c:22-31 | returns -1 exactly when the frame is in the set, and otherwise adds it and nothing else: byte f / 8 grows by 2^(f mod 8) |
| FrameMap.FrameManager.FreeFrame | src/MemoryManagment/physical.c:33-41 | returns -1 exactly when the frame is not in the set, and otherwise drops it and nothing else: byte f / 8 shrinks by 2^(f mod 8) |
| FrameMap.BitmapIsASet | src/MemoryManagment/physical.c:22-41 | over any sequence of calls the bitmap and a set of frame numbers agree, return codes included |
| FrameMap.FramesAreConserved | src/MemoryManagment/physical.c:22-41 | the number of set bits moves by successful allocations minus successful frees |
| FrameMap.FreeUndoesAlloc | src/MemoryManagment/physical.c:22-41 | freeing the frame number after an allocation restores every byte of the map |
| FrameMap.FreeByAddress | src/MemoryManagment/physical.c:22-35 | freeing with the byte address restores the map if and only if the address is 0 |
| FrameMap.SameFrames | src/MemoryManagment/physical.c:22-41 | maps of the same size with the same frames are equal byte for byte |
| FrameMap.MapCoversMemory | efi/src/EFI_STUB.c:445-455 | every address of a non-overlapping memory map, in any order, has its bit inside the frame map if and only if the scan finds the highest end (the number of joints is even) and that end is a multiple of 0x8000 |
| TempWindow.SlotTranslates | src/MemoryManagment/physical.c:50-60 | the word that the kernel reads at slot i of its window is the entry that translates the slot's page |
| TempWindow.StoreInWindow | src/MemoryManagment/physical.c:60-66 | in a writable window a virtual store into slot i remaps that page only and keeps the window open unless i is 0 |
| TempWindow.OpenNeverFaults | src/MemoryManagment/physical.c:50-66 | in an open window no load or store of a slot raises a page fault |
| TempWindow.SlotRoundTrip | src/MemoryManagment/physical.c:61-65 | the slot computed from the pointer of slot i is i mod 64, hence i exactly for i below 64 |
| TempWindow.SlotOfAnyPointer | src/MemoryManagment/physical.c:64-65 | for any pointer into the window the slot is its offset divided by 0x8000 |
| TempWindow.TempMapMaps | src/MemoryManagment/physical.c:50-62 | TempMap maps the frame at the page of slot 1 and changes no other translation |
| TempWindow.FreeTempMapUnmaps | src/MemoryManagment/physical.c:64-69 | FreeTempMap unmaps the page of the computed slot only, and closes the window exactly for slot 0 |
| TempWindow.TempMapWrites | src/MemoryManagment/physical.c:60-60 | of all of memory TempMap changes the word of slot 1 only, to the masked address with the low bits 3 |
| TempWindow.FreeTempMapClearsOneBit | src/MemoryManagment/physical.c:65-66 | FreeTempMap clears bit 0 of the word of its slot; all other bits of it and all other words of memory stay |
| TempWindow.MapThenFreeWrites | src/MemoryManagment/physical.c:50-69 | TempMap, then FreeTempMap of its pointer, leaves the masked address with the low bits 2 in slot 1 and every other word as it was |
| TempWindow.ReturnedPointerIsSlotEight | src/MemoryManagment/physical.c:60-61 | the returned pointer reaches the mapped frame if and only if the entry of slot 8 was present with that frame, whatever its flags |
| TempWindow.FirstPointerFaults | src/MemoryManagment/physical.c:50-62 | from the state that the boot stub leaves behind, the pointer of the first TempMap faults |
| TempWindow.MapThenFree | src/MemoryManagment/physical.c:50-69 | TempMap, then FreeTempMap of its pointer, leaves slot 1 unmapped and all else as before |
| TempWindow.FreeByPageAddress | src/MemoryManagment/physical.c:64-66 | freeing the address of the mapped page leaves that page mapped and unmaps the window |
| TempWindow.KernelMemory.TempMap | src/MemoryManagment/physical.c:50-62 | a page fault if slot 1 cannot be loaded; otherwise still scanning after any number of rounds if slot 1 is present; otherwise a page fault if it cannot be stored to, and else the specified store and pointer |
| TempWindow.OpenOutcomes | src/MemoryManagment/physical.c:50-69 | in an open window TempMap returns its pointer if and only if slot 1 is free and scans for ever otherwise; FreeTempMap never faults |
| TempWindow.SecondTempMapHangs | src/MemoryManagment/physical.c:50-57 | from the state that the boot stub leaves behind, the first TempMap succeeds, and the second scans for ever with slots 2 to 511 free |
| TempWindow.KernelMemory.FreeTempMap | src/MemoryManagment/physical.c:64-69 | clears the present bit of the computed slot through the window, or raises a page fault exactly when the slot cannot be stored to |
| TempWindow.BootOpensTheWindow | efi/src/EFI_STUB.c:480-486 | what the boot stub leaves behind meets the kernel's assumptions on its window, and slot 1 is free |
| FormatSpec.ColumnCount | efi/include/gnu-efi/internal/va_print.h:185-240 | an item takes as many columns as the largest of width, field width and cut text, for all widths |
| FormatSpec.LeftJustifyNeedsAFieldWidth | efi/include/gnu-efi/internal/va_print.h:216-239 | without a field width above width and text the justify flag changes nothing and padding stays in front |
| FormatSpec.MinusJustifiesLeft | efi/include/gnu-efi/internal/va_print.h:216-239 | under the justify flag the columns begin with the text if and only if the text fills the width or consists of pad characters |
| FormatSpec.MinusFiveD | efi/include/gnu-efi/internal/va_print.h:343-345 | `%-5d` prints what `%5d` prints: blanks up to five columns, then the number |
| FormatSpec.NumberIsTheDigitRun | efi/include/gnu-efi/internal/va_print.h:359-374 | a width is the number of its longest digit run modulo 2^64, and parsing goes on right after it |
| FormatSpec.PlainFormat | efi/include/gnu-efi/internal/va_print.h:306-311 | a format without percent signs prints itself and keeps the attribute |
| FormatSpec.ArgumentsDoNotCloseDirectives | efi/include/gnu-efi/internal/va_print.h:326-526 | whether and where a directive closes is independent of arguments, widths and attributes in force |
| FormatSpec.FormatEnds | efi/include/gnu-efi/internal/va_print.h:306-530 | a format is overrun if and only if, read character by character, its last directive lacks a closing character; otherwise the attribute at its end is the one that its characters determine; arguments matter for neither |
| FormatSpec.DirectiveAttr | efi/include/gnu-efi/internal/va_print.h:326-530 | a directive closes at the first character that is not a flag, digit, lower-case attribute or zero upper-case attribute, and never if there is none; the attribute after it is the upper-case one, or the one before its last lower-case flag unless that is 0 |
| FormatSpec.RestoredExactly | efi/include/gnu-efi/internal/va_print.h:415-530 | for every attribute, a directive that prints an item gives it back if and only if it has no lower-case flag, or the attribute in force before its last one, or the last one in case the former is 0, equals it |
| FormatSpec.FieldAttributesAreRestored | efi/include/gnu-efi/internal/va_print.h:411-530 | over any whole format with at most one lower-case flag for each item, the attribute at the end is that of the last upper-case directive, or the initial one if there is none, if and only if the initial one is not 0, or there is an upper-case directive, or all lower-case attributes of items are 0 |
| FormatSpec.TwoFieldAttributesStick | efi/include/gnu-efi/internal/va_print.h:150-155 | after the format `%hex` the highlight attribute stays, or the error attribute if highlight is 0, whatever the attribute was before |
| FormatSpec.OneFieldAttributeSticksAtZero | efi/include/gnu-efi/internal/va_print.h:150-155 | after the format `%hx` every attribute but 0 is in force again, while from 0 the highlight stays |
| FormatGrammar.HeadRead | efi/include/gnu-efi/internal/va_print.h:313-374 | flags, a width and a field width, written out or taken from the arguments, are read as the shape of a directive says |
| FormatGrammar.ColumnsAreLaid | efi/include/gnu-efi/internal/va_print.h:185-240 | an item is its text, cut at the field width, padded in front to the width, and filled with blanks to the field width in front or behind |
| FormatGrammar.NumberDirective | efi/include/gnu-efi/internal/va_print.h:402-506 | anywhere in a format, the letters d, f, g, r, t, u and x take one argument and print its conversion under `,` and `l` in its columns, between the attribute changes of the flags |
| FormatGrammar.StringDirective | efi/include/gnu-efi/internal/va_print.h:472-477 | the letters a and s print their argument up to its NUL, "(null)" for a null pointer |
| FormatGrammar.CharDirective | efi/include/gnu-efi/internal/va_print.h:384-388 | the letter c prints the low 16 bits of its argument |
| FormatGrammar.PathDirective | efi/include/gnu-efi/internal/va_print.h:390-400 | the letter D prints the first 99 characters of the text of its argument |
| FormatGrammar.PointerDirective | efi/include/gnu-efi/internal/va_print.h:453-466 | the letter p prints "0x" and the hexadecimal number without padding to a width |
| FormatGrammar.FixedHexDirective | efi/include/gnu-efi/internal/va_print.h:493-506 | the letter X prints at least 8 hexadecimal digits, 16 under `l`, zeros in front |
| FormatGrammar.OtherDirective | efi/include/gnu-efi/internal/va_print.h:507-512 | a percent sign prints itself, an unknown letter a question mark, and neither takes an argument |
| FormatGrammar.AttributeDirective | efi/include/gnu-efi/internal/va_print.h:411-451 | the letters E, H and N set the error, highlight and normal attribute for good, unless it is 0 |
| FormatGrammar.FlagAttributes | efi/include/gnu-efi/internal/va_print.h:415-451 | the flags e, h and n set the error, highlight and normal attribute for the field, the others none |
| FormatGrammar.PercentS | efi/src/EFI_STUB.c:238-238 | `%s` prints its argument, "(null)" for a null pointer |
| FormatGrammar.PercentLongX | efi/src/EFI_STUB.c:431-431 | `%lllx` and a newline print the 64-bit hexadecimal number on a line |
| FormatGrammar.PercentHX | efi/include/gnu-efi/internal/va_print.h:143-156 | `%hx` tells the device the highlight, the number, and, unless it is 0, the old attribute |
| FormatGrammar.PercentZeroH | efi/include/gnu-efi/internal/va_print.h:520-525 | an upper-case attribute that is 0 does not end a directive: `%Hx` then prints a number |
| Printer.ExpansionAddsOnlyCR | efi/include/gnu-efi/internal/va_print.h:166-170 | output and requested text agree up to carriage returns, and exactly when there is no newline |
| Printer.OneBufferOneExpansion | efi/include/gnu-efi/internal/va_print.h:166-170 | where the buffer is not emptied in the middle, requested text has one output only |
| Printer.EveryNewlineGetsOne | efi/include/gnu-efi/internal/va_print.h:166-170 | there, a text without carriage returns of its own gets one in front of every newline |
| Printer.PrintState.PFLUSH | efi/include/gnu-efi/internal/va_print.h:128-138 | hands over exactly the waiting characters, loses and repeats none |
| Printer.PrintState.PSETATTR | efi/include/gnu-efi/internal/va_print.h:143-156 | text before the change is handed over first; the old attribute is remembered |
| Printer.PrintState.PPUTC | efi/include/gnu-efi/internal/va_print.h:161-180 | one character; a newline gets a carriage return if the counter is 0 or the last buffered character is not one, gets none if that character is one, and only after a flush may do either; the buffer never overflows |
| Printer.PrintState.PITEM | efi/include/gnu-efi/internal/va_print.h:185-240 | blanks, pad characters and cut text in the specified order, for all widths |
| Printer.PrintState.ReadNumber | efi/include/gnu-efi/internal/va_print.h:368-374 | the do loop reads the specified number and steps back onto the character after it |
| Printer.PrintState.ReadSign | efi/include/gnu-efi/internal/va_print.h:328-512 | each arm of the switch does what the specification says of its character |
| Printer.PrintState.PrintDirective | efi/include/gnu-efi/internal/va_print.h:313-530 | one directive prints what is specified, and fails to close exactly when specified |
| Printer.PrintState.Print | efi/include/gnu-efi/internal/va_print.h:242-536 | the strings and attribute changes given to the device are the pure formatter's output with a carriage return in front of exactly the newlines that need one, open only where the buffer was just emptied; each string fits the buffer, holds no NUL, and has a carriage return before every inner newline; where the device can be told attributes, every string but the last fills the buffer or is followed by a change of attribute; the length counts every character; the format is overrun exactly when its characters leave the last directive open |
| LinkList.InitializeListHead | efi/include/gnu-efi/efilink.h:43-45 | a lone ring |
| LinkList.IsListEmpty | efi/include/gnu-efi/efilink.h:54-55 | true exactly for a lone head |
| LinkList.InsertTailList | efi/include/gnu-efi/efilink.h:90-98 | the ring with the entry put before the head, that is at the end of the list |
| LinkList.InsertHeadList | efi/include/gnu-efi/efilink.h:108-116 | the ring with the entry right after the head |
| LinkList.RemoveEntryList | efi/include/gnu-efi/efilink.h:64-70 | the ring without the entry, which keeps its own links; a lone entry stays a lone ring |
| LinkList.SwapListEntries | efi/include/gnu-efi/efilink.h:126-139 | moves entry 2 to just before entry 1; the links stay mirrored if and only if the two differ and entry 2 is not there already, or the ring has one entry; otherwise entry 2 points at itself, and which entries still point at it or past it is stated |
| LinkList.RingIsMirrored | efi/include/gnu-efi/efilink.h:28-31 | in a ring, `x.Flink.Blink == x.Blink.Flink == x` |
| LinkList.RemoveUndoesInsert | efi/include/gnu-efi/efilink.h:64-98 | removing an inserted entry gives back the sequence |
| LinkList.InsertedElements | efi/include/gnu-efi/efilink.h:90-98 | an inserted entry stands right before the given one, and no other entry comes or goes |
| LinkList.MoveMeans | efi/include/gnu-efi/efilink.h:124-139 | a move keeps all entries and the order of all others and puts entry 2 right before entry 1 |
| Numerals.DigitsRoundTrip | src/Terminal/stdio.c:67-71 | the digits of a number stand for it and have no leading zero |
| Numerals.CanonicalIsDigits | src/Terminal/stdio.c:67-71 | every numeral without leading zero is the one printed for its value |
| Terminal.NumeralReadsBack | src/Terminal/stdio.c:58-101 | what is printed consists of 0 to 9 and A to F, reads back as the number, has no leading zero, and needs at most 10 decimal or 16 hexadecimal characters |
| Terminal.NumeralAdvances | src/Terminal/stdio.c:58-101 | printing a number moves the cursor by its number of digits |
| Terminal.CursorIsConserved | src/Terminal/stdio.c:21-56 | n characters without newline move the cursor by exactly n cells, modulo the 2^32 lines of its counter |
| Terminal.CursorStaysInLine | src/Terminal/stdio.c:51-54 | after any character the cursor is inside its line |
| Terminal.NewlineStartsALine | src/Terminal/stdio.c:27-29 | a newline moves to the first cell of the next line |
| Terminal.TextAfterNewline | src/Terminal/stdio.c:21-56 | over any text, what follows the last newline starts in the first cell of the line below it |
| Terminal.NoColumns | src/Terminal/stdio.c:51-54 | on a screen narrower than one cell every character ends its line, and a newline two |
| Terminal.DrawnExactly | src/Terminal/stdio.c:21-56 | what is drawn is exactly the visible characters in order, each at the cursor that the text before it leads to |
| Terminal.TextIsInOrder | src/Terminal/stdio.c:21-56 | character k of a text is drawn k cells after its start |
| Terminal.Console.constructor | src/Terminal/stdio.c:14-19 | the cursor starts at the origin and the sizes are in cells |
| Terminal.Console.PrintChar | src/Terminal/stdio.c:21-56 | draws at the cursor and moves it as specified |
| Terminal.Console.PrintNum | src/Terminal/stdio.c:58-76 | prints the decimal numeral; the digit buffer is never overrun |
| Terminal.Console.PrintHex | src/Terminal/stdio.c:78-101 | prints the hexadecimal numeral; the digit buffer is never overrun |
| Terminal.Console.PrintString | src/Terminal/stdio.c:103-109 | prints the string up to its terminator |
| Terminal.StrLen | src/stdlib/string.c:4-11 | the index of the first NUL |

## Left out

- Firmware other than `AllocatePages`: files, graphics mode, memory map buffers, `ExitBootServices`. What they deliver are parameters.
- `AllocatePages` keeps the promises of section 7.2 of the UEFI Specification: failures have the sign bit set, granted pages are aligned frames below 2^52 not in use. A warning status, which the stub would mistake for success with an uninitialised pointer, is not modelled.
- The loop that zeroes the root table: it writes 0x400 entries into a page of 512, and the model starts from 512 zero entries.
- Write protection in supervisor mode: the processor is taken to have CR0.WP set, so that a store through a read-only mapping faults. What the kernel does after a page fault is not modelled.
- Canonical addresses, user, execute-disable and reserved bits, the translation cache, loading of CR3 and `RefreshPages`: the walk models presence, frame, large pages and write permission only.
- `efi_main` loops whose size is above 2^64 - 0x1000: there the 64-bit counter wraps and the loop does not end.
- BootStub.Machine.MapRange: the size is bounded by 2^64 - 0x1000, because above it the source does not terminate (`Ranges.CounterReaches`).
- TempWindow.KernelMemory.TempMap: waiting for ever is stated as still scanning after every number of rounds, because a model method must end.
- FrameMap.FrameManager.AllocFrame: requires an index inside the map, because the source does not check it and reads elsewhere otherwise.
- FrameMap.FrameManager.FreeFrame: requires an index inside the map, because the source does not check it and writes elsewhere otherwise.
- Terminal.Console.PrintString: requires a terminated string of fewer than 2^31 bytes, because the source's index is a signed 32-bit integer.
- Printer.PrintState.Print: where the device cannot be told attributes, a change still empties the buffer and leaves no event, so nothing is said about the length of the strings there. It stops where the source would read past the end of an unclosed format, because that memory is unknown; a missing argument or one of the wrong kind reads as 0 or a null string.
- The converters that `_Print` calls for numbers, times, GUIDs, status codes and device paths: any function from letter, flags and argument to text.
- Printing of pointers reuses the hexadecimal converter; the sizes of the scratch buffer that converters write into are not modelled.
- Printer.PrintState.PITEM: the width fields of the item are local copies, because nothing reads them after the item is printed.
- Pixels, fonts and the frame buffer: a drawn character is an entry in a log.
- `strcmp`, `memcpy`, `InitMemoryManagment`, the status and memory type names, port input and output, interrupt tables, and the older loader in `efi/src/main.c`: they would only add easy members or firmware plumbing.
- The debug variants of the list macros and `CONTAINING_RECORD`.
