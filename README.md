# sim_mem paging engine in Dafny

This project models the paging engine of `sim_mem`, a small simulator of demand paging. It has a 200-byte physical memory split into page-sized frames. It keeps a page table with one descriptor (valid, frame, dirty, swap index, reference time) per logical page. A frame table records which page each frame holds, with -1 for a free frame. There is also a swap area of one page-sized slot per page.

- `load(address)` and `store(address, value)` check the address, split it into a page and an offset, and fault the page in when it is not resident. They then read or write the byte, mark a stored page dirty, and stamp the page for LRU.
- The fault handler `load_page` chooses the page's content source from its position in the text, data, bss and heap/stack segments. It refuses to zero-fill a heap/stack page on a load. It takes the first free frame, or evicts a victim: the first clean resident page, otherwise the strict-LRU page. It then installs the page.
- `unload_page` writes a dirty victim back into the swap slot numbered by its page index, then unmaps it.

The project has five modules:

- `PagingSpec` (paging_spec.dfy) states the engine on values. A `State` holds the page table, the frame table, memory, swap and a logical clock. Each operation is a function from state to state, and each keeps the engine invariant `Inv`. `Inv` says that resident pages and frames agree both ways, and that a non-resident page has no frame and is clean.
- `SimMemory` (sim_mem.dfy) is the class `SimMem`.
  - Its page table, frame table, memory and swap are arrays updated in place.
  - The constructor and the scans are loops with invariants.
  - Every method that changes the engine's state is proved to compute the `PagingSpec` function on the abstract state `Abs()` and to keep `Valid()`. The scans are proved equal to the `PagingSpec` functions that specify them, and the two copy loops are proved equal to `Overwrite` on the one array they write.
- `PagingProperties` (paging_properties.dfy) proves what the engine promises about the `PagingSpec` functions:
  - the initial state;
  - address translation;
  - the content-source and heap-guard rules, by segment;
  - frame and victim choice;
  - what `load_page` and `unload_page` do to every byte and entry;
  - the store-then-load round trip;
  - the `store(98, 'X')`, `load(8)` scenario of `main`.
- `Findings` (findings.dfy) models three defects of the source as written, each next to a concrete input. The rest of the model uses the corrected behaviour.
- `Arith` (arith.dfy) holds integer lemmas about page-sized address arithmetic.

Where the code and its comments disagree, the model follows the code, except for the three defects listed under "## Findings". There the model uses the corrected behaviour and keeps the as-written behaviour beside it.

## Model

| member | source | states |
|---|---|---|
| PagingSpec.Initial | mem_simulator/sim_mem.cpp:41-65 | the state after construction satisfies the engine invariant |
| PagingProperties.InitialState | mem_simulator/sim_mem.cpp:41-65 | after construction no page is valid or dirty, memory is all zero, the swap area is `num_of_pages * page_size` zero bytes, the clock is 0, and the first fault is served from frame 0 |
| SimMemory.SimMem.constructor | mem_simulator/sim_mem.cpp:41-65 | the new object is valid, its frame count is `MEMORY_SIZE / page_size`, its arrays are fresh, and its abstract state is `Initial` |
| SimMemory.SimMem.UnmappedTable | mem_simulator/sim_mem.cpp:41-45 | the page-table loop yields `num_of_pages` entries, each `{false, -1, false, -1, 0}` |
| SimMemory.SimMem.ZeroSwap | mem_simulator/sim_mem.cpp:47-57 | writing `num_of_pages` zero pages yields a swap area of `num_of_pages * page_size` zero bytes |
| PagingProperties.NoSharedFrames | mem_simulator/sim_mem.cpp:225-231 | under the invariant, no two resident pages name the same frame |
| PagingProperties.NonResidentIsClean | mem_simulator/sim_mem.cpp:243-247 | under the invariant, a page that is not resident has frame -1 and is not dirty |
| PagingSpec.Translate | mem_simulator/sim_mem.cpp:78-85 | an address is split only when it is inside physical memory, and then into an existing page and an offset below the page size; it is reported out of bounds exactly when it is outside `[0, MEMORY_SIZE)` |
| PagingProperties.TranslateMeaning | mem_simulator/sim_mem.cpp:78-85 | an address is translated exactly when it is inside memory and inside the page table, and then `page * page_size + offset` is the address |
| PagingProperties.TranslatePageByte | mem_simulator/sim_mem.cpp:84-85 | byte `offset` of page `page` translates back to `page` and `offset` |
| PagingSpec.PhysicalAddress | mem_simulator/sim_mem.cpp:92-93 | the physical address of a byte of a resident page is inside physical memory |
| PagingProperties.PhysicalAddressSplits | mem_simulator/sim_mem.cpp:92-93 | the physical address divided by the page size is the page's frame, and the remainder is the offset |
| PagingProperties.PhysicalAddressInjective | mem_simulator/sim_mem.cpp:92-93 | distinct bytes of resident pages have distinct physical addresses |
| PagingSpec.Load | mem_simulator/sim_mem.cpp:76-99 | `load` keeps the engine invariant |
| PagingSpec.LoadAt | mem_simulator/sim_mem.cpp:84-98 | the in-range part of `load` keeps the engine invariant |
| PagingSpec.Fault | mem_simulator/sim_mem.cpp:87-89 | the fault step fails exactly when the page is not resident and the heap guard refuses it; otherwise the page is resident afterwards, the invariant holds and the clock is unchanged |
| PagingSpec.Touch | mem_simulator/sim_mem.cpp:95-96 | stamping a page for LRU keeps the engine invariant |
| PagingProperties.TouchMakesNewest | mem_simulator/sim_mem.cpp:95-96 | the stamp advances the clock by one and gives the page a reference time newer than every other page's |
| PagingProperties.TouchedPageIsNotLru | mem_simulator/sim_mem.cpp:95-96 | the page stamped last is not the LRU page while some other page is resident |
| PagingProperties.OutOfRangeChangesNothing | mem_simulator/sim_mem.cpp:78-81 | `load` and `store` of an address outside memory or the page table change no state, and `load` returns 0 |
| PagingProperties.LoadStatus | mem_simulator/sim_mem.cpp:76-99 | `load` succeeds exactly when the address is in range and the page is resident or the guard admits its fault; otherwise it returns 0 and changes nothing |
| PagingProperties.HeapGuardChangesNothing | mem_simulator/sim_mem.cpp:157-163 | a load whose fault the heap guard refuses reports `UninitializedHeapAccess`, returns 0 and changes nothing |
| PagingProperties.LoadOfResidentPage | mem_simulator/sim_mem.cpp:87-98 | a load of a resident page returns the byte at its physical address and only stamps the page |
| SimMemory.SimMem.Load | mem_simulator/sim_mem.cpp:76-99 | the method keeps `Valid()`, and its value, status and new state are those of `PagingSpec.Load` on the old state |
| SimMemory.SimMem.LoadAt | mem_simulator/sim_mem.cpp:84-98 | the in-range part of `load` computes `PagingSpec.LoadAt` |
| SimMemory.SimMem.ReadResident | mem_simulator/sim_mem.cpp:92-98 | the byte read is the old memory at the page's physical address, and the new state is the old one with the page stamped |
| SimMemory.SimMem.FaultIn | mem_simulator/sim_mem.cpp:87-89 | the fault step computes `PagingSpec.Fault`; on success the page is resident, on failure nothing changed |
| PagingSpec.Store | mem_simulator/sim_mem.cpp:101-129 | `store` keeps the engine invariant |
| PagingSpec.StoreAt | mem_simulator/sim_mem.cpp:109-128 | the in-range part of `store` keeps the engine invariant |
| PagingSpec.WriteByte | mem_simulator/sim_mem.cpp:116-124 | writing a byte of a resident page and marking it dirty keeps the engine invariant |
| PagingProperties.StoreStatus | mem_simulator/sim_mem.cpp:101-114 | `store` succeeds exactly when the address is in range; a store-mode fault is never refused |
| PagingProperties.StoreWritesByte | mem_simulator/sim_mem.cpp:109-127 | after a store the page is resident and dirty, the byte at its physical address is the value, and its reference time is the newest |
| PagingProperties.StoreChangesOnlyItsByte | mem_simulator/sim_mem.cpp:109-127 | apart from what its fault did (nothing for a resident page, `PageIn` otherwise), a store leaves the frame table, the swap area, every other page entry and every other byte of memory as they were |
| PagingProperties.StoreThenLoad | mem_simulator/sim_mem.cpp:84-127 | a load right after a store of the same address returns the stored value without a fault, and the page stays dirty |
| SimMemory.SimMem.Store | mem_simulator/sim_mem.cpp:101-129 | the method keeps `Valid()`, and its status and new state are those of `PagingSpec.Store` on the old state |
| SimMemory.SimMem.StoreAt | mem_simulator/sim_mem.cpp:109-128 | the in-range part of `store` computes `PagingSpec.StoreAt` |
| SimMemory.SimMem.WriteResident | mem_simulator/sim_mem.cpp:116-127 | the new state is the old one with the byte written, the page dirty and the page stamped |
| PagingProperties.MainScenario | mem_simulator/main.cpp:7-9 | with `main`'s configuration, `store(98, 'X')` succeeds with page 6 in frame 0, and the following `load(8)` succeeds and returns byte 8 of the executable |
| PagingProperties.ContentSourceBySegment | mem_simulator/sim_mem.cpp:136-155 | with page-aligned segments, text pages come from the executable; a dirty page of another segment comes from swap; a clean data page comes from the executable; a clean bss or heap/stack page is a zero page |
| PagingProperties.HeapGuardBySegment | mem_simulator/sim_mem.cpp:157-163 | with page-aligned segments, the guard refuses exactly the load-mode faults of clean heap/stack pages |
| PagingProperties.FaultNeverReadsSwap | mem_simulator/sim_mem.cpp:87-89 | a page that faults is clean, so its content source is never swap |
| PagingSpec.SourcePage | mem_simulator/sim_mem.cpp:207-217 | the buffer read from any source is exactly one page long |
| SimMemory.SimMem.ReadSource | mem_simulator/sim_mem.cpp:207-217 | the buffer read is the page's content from its source: a zero page, its bytes of the executable, or its swap slot |
| PagingSpec.FirstFree | mem_simulator/sim_mem.cpp:165-172 | the result is -1 exactly when no frame is free; otherwise it is a free frame and no lower frame is free |
| SimMemory.SimMem.FindFreeFrame | mem_simulator/sim_mem.cpp:165-172 | the scan returns `FirstFree` of the frame table |
| PagingSpec.FirstClean | mem_simulator/sim_mem.cpp:180-186 | the result is -1 exactly when no page is resident and clean; otherwise it is such a page and no lower page is |
| PagingSpec.LruVictim | mem_simulator/sim_mem.cpp:188-197 | the result is -1 exactly when no page is resident; otherwise it is resident, has the smallest reference time of all resident pages, and every lower resident page has a strictly larger one |
| PagingSpec.ChooseVictim | mem_simulator/sim_mem.cpp:178-198 | the victim is -1 exactly when no page is resident; otherwise it is resident, and it is the first clean resident page if there is one, else the LRU page |
| PagingProperties.VictimChoice | mem_simulator/sim_mem.cpp:178-198 | when some page is resident, the victim is resident; it is the lowest clean resident page if one exists, otherwise a resident page of minimal reference time with ties going to the lowest index |
| SimMemory.SimMem.FindVictim | mem_simulator/sim_mem.cpp:178-198 | the two scans return `ChooseVictim` of the page table |
| PagingSpec.EvictionFindsVictim | mem_simulator/sim_mem.cpp:175-201 | under the invariant, when no frame is free a victim exists |
| PagingSpec.Victim | mem_simulator/sim_mem.cpp:178-201 | the victim of a full memory is `ChooseVictim`, a resident page |
| PagingSpec.TargetFrame | mem_simulator/sim_mem.cpp:165-201 | the frame a fault is served from is a frame of physical memory |
| PagingSpec.MakeRoom | mem_simulator/sim_mem.cpp:174-205 | after making room the invariant holds, the target frame is free, non-resident pages are untouched and the clock is unchanged |
| PagingProperties.FrameChoice | mem_simulator/sim_mem.cpp:165-205 | a fault takes the lowest free frame and evicts nothing; only when no frame is free does it unload `ChooseVictim` and reuse its frame |
| SimMemory.SimMem.AcquireFrame | mem_simulator/sim_mem.cpp:165-205 | the method returns `TargetFrame` of the old state, and the new state is `MakeRoom` of it |
| PagingSpec.Overwrite | mem_simulator/sim_mem.cpp:219-220 | the copied bytes land at the base, and every other byte is unchanged |
| PagingSpec.Install | mem_simulator/sim_mem.cpp:219-231 | installing a page into a free frame keeps the invariant, makes the page resident and leaves the clock unchanged |
| SimMemory.SimMem.CopyToMemory | mem_simulator/sim_mem.cpp:219-220 | memory becomes the old memory with the buffer copied in at the given byte |
| SimMemory.SimMem.InstallPage | mem_simulator/sim_mem.cpp:219-231 | the new state is `Install` of the old one |
| PagingSpec.LoadPage | mem_simulator/sim_mem.cpp:132-232 | `load_page` fails exactly when the heap guard refuses; otherwise the invariant holds, the page is resident and the clock is unchanged |
| PagingSpec.PageIn | mem_simulator/sim_mem.cpp:165-231 | serving an admitted fault keeps the invariant, makes the page resident and leaves the clock unchanged |
| PagingProperties.LoadPageInstalls | mem_simulator/sim_mem.cpp:207-231 | after an admitted fault, the entry is resident and clean in the target frame with swap index -1, and that frame is marked as held by the page; the frame's bytes are the page's source content, and every other byte of memory is unchanged |
| PagingProperties.LoadPageWithFreeFrame | mem_simulator/sim_mem.cpp:165-172 | with a free frame, `load_page` uses the first one and leaves every other page and the swap area unchanged |
| PagingProperties.LoadPageEvicts | mem_simulator/sim_mem.cpp:174-205 | with no free frame, `load_page` unloads `ChooseVictim`, a page other than the faulting one, reuses its frame, and leaves every other page unchanged |
| SimMemory.SimMem.LoadPage | mem_simulator/sim_mem.cpp:132-232 | the method computes `PagingSpec.LoadPage`; when it refuses, nothing changed |
| SimMemory.SimMem.PageInFrame | mem_simulator/sim_mem.cpp:165-231 | the new state is `PageIn` of the old one |
| PagingSpec.UnloadPage | mem_simulator/sim_mem.cpp:234-251 | unloading keeps the invariant, frees the frame the page held, leaves every other entry, memory and the clock unchanged |
| PagingSpec.WriteBack | mem_simulator/sim_mem.cpp:237-241 | the write-back keeps the length of the swap area |
| PagingSpec.Unmap | mem_simulator/sim_mem.cpp:243-250 | unmapping keeps the invariant, frees the page's frame, and leaves other entries, memory, swap and the clock unchanged |
| PagingSpec.SwapContentIsFree | mem_simulator/sim_mem.cpp:237-241 | the invariant does not depend on the swap area's contents, so writing back keeps it |
| PagingProperties.UnloadWritesBack | mem_simulator/sim_mem.cpp:234-251 | after `unload_page(v)` the entry is not resident, clean and has frame -1; the frame's bytes of a dirty page are in swap slot `v` and no other swap byte changed; a clean page leaves swap as it was |
| SimMemory.SimMem.UnloadPage | mem_simulator/sim_mem.cpp:234-251 | the new state is `PagingSpec.UnloadPage` of the old one |
| SimMemory.SimMem.WriteSwapPage | mem_simulator/sim_mem.cpp:238-241 | the swap area becomes the old one with the frame's bytes copied into the slot |
| SimMemory.SimMem.UnmapPage | mem_simulator/sim_mem.cpp:243-250 | the new state is `Unmap` of the old one |
| PagingSpec.Config.FrameCount | mem_simulator/sim_mem.cpp:63 | the number of frames, `MEMORY_SIZE / page_size`, is at least one for every admitted page size |
| PagingSpec.Config.TextPages | mem_simulator/sim_mem.cpp:137 | the number of text pages, `text_size / page_size`, is at most the number of text and data pages |
| PagingSpec.Config.TextDataPages | mem_simulator/sim_mem.cpp:148 | definition of the boundary `(text_size + data_size) / page_size`; its meaning is proved in `PagingProperties.ContentSourceBySegment` |
| PagingSpec.Config.LoadedPages | mem_simulator/sim_mem.cpp:159 | definition of the boundary `(text_size + data_size + bss_size) / page_size`; its meaning is proved in `PagingProperties.HeapGuardBySegment` |
| PagingSpec.ContentSource | mem_simulator/sim_mem.cpp:137-155 | a page is read from the executable exactly when it is a text page, or a clean page below the text+data boundary; it is read from swap exactly when it is a dirty non-text page; the segment meaning is proved in `PagingProperties.ContentSourceBySegment` |
| PagingSpec.HeapGuardRejects | mem_simulator/sim_mem.cpp:157-159 | definition of the guard; its meaning is proved in `PagingProperties.HeapGuardBySegment` |
| PagingSpec.CleanResident | mem_simulator/sim_mem.cpp:182 | definition of the clean-victim test; its use is proved in `PagingSpec.FirstClean` and `PagingProperties.VictimChoice` |
| PagingSpec.FrameInMemory | mem_simulator/sim_mem.cpp:63 | every one of the `MEMORY_SIZE / page_size` frames lies inside physical memory |
| Findings.PageIndexAsWritten | mem_simulator/sim_mem.cpp:78-84 | as written, a page index is produced exactly for addresses inside physical memory, whatever the page-table size |
| Findings.AddressPastPageTable | mem_simulator/sim_mem.cpp:78-87 | with `main`'s configuration, address 150 passes the check and names page 9 of an 8-page table; `Translate` reports `PageOutOfRange` |
| Findings.PhysicalAddressAsWritten | mem_simulator/sim_mem.cpp:92-93 | as written, the physical address is negative exactly when the frame number is |
| Findings.LoadAfterRefusedFault | mem_simulator/sim_mem.cpp:87-98 | on a fresh engine with `main`'s configuration, `load(100)` is refused by the guard and the address read would be -12; the corrected `Load` returns 0 with `UninitializedHeapAccess` and changes nothing |
| Findings.UnloadPageAsWritten | mem_simulator/sim_mem.cpp:234-251 | as written, the entry is cleared (not valid, frame -1, clean, swap index -1), the swap area becomes `SwapAfterUnload`, the frame-table slot numbered like the page is freed, and every other slot, every other entry, memory and the clock are kept |
| Findings.SwapAfterUnload | mem_simulator/sim_mem.cpp:237-241 | a dirty page's frame bytes are written into swap slot `v` and no other swap byte changes; a clean page leaves the swap area as it was |
| Findings.InstallAsWritten | mem_simulator/sim_mem.cpp:219-231 | as written, the page is mapped into the chosen frame and the frame marked as held by it, whatever the frame table said before; other slots and entries are kept |
| Findings.StoreFaultAsWritten | mem_simulator/sim_mem.cpp:132-232 | a store-mode `load_page` as written, where it stays inside its arrays, leaves the page resident |
| Findings.WriteResidentAsWritten | mem_simulator/sim_mem.cpp:116-127 | as written, the byte at `frame * page_size + offset` becomes the value and every other byte of memory is kept; the page stays in its frame, becomes dirty and is stamped with the next clock value; the frame table, swap and every other entry are kept |
| Findings.StoreAsWritten | mem_simulator/sim_mem.cpp:101-129 | `store` as written, where it stays inside its arrays, leaves the page of an in-memory address resident and dirty |
| Findings.FirstStore | mem_simulator/sim_mem.cpp:101-129 | as written, on a fresh engine of three 67-byte pages, `store(67)` puts page 1 in frame 0 |
| Findings.SecondStore | mem_simulator/sim_mem.cpp:101-129 | then `store(0)` puts page 0 in frame 1 |
| Findings.ThirdStore | mem_simulator/sim_mem.cpp:101-129 | then `store(67)` stamps page 1, leaving page 0 least recently used |
| Findings.FourthStore | mem_simulator/sim_mem.cpp:174-205 | then `store(134)` evicts page 0 from frame 1, frees frame 0 while page 1 still holds it, and installs page 2 in frame 1 |
| Findings.FifthStore | mem_simulator/sim_mem.cpp:165-172 | then `store(0)` installs page 0 in the frame page 1 still holds |
| Findings.UnloadFreesWrongFrame | mem_simulator/sim_mem.cpp:250 | on a fresh engine of three 67-byte pages and two frames, the stores at 67, 0, 67, 134 and 0, as written, end with pages 0 and 1 both resident in frame 0 |

## Left out

- The executable and the swap file are byte sequences and an array. Opening, seeking, reading, writing and flushing them, and the `exit(1)` on a failed open, are not modelled (mem_simulator/sim_mem.cpp:23-39, 213-216, 239-240). Read failures and short reads are not modelled either.
- `clock()` is replaced by a counter that advances by one on every successful access. The source's processor-time stamps can be equal for several accesses, and the model does not capture those ties.
- The LRU scan's `LONG_MAX` start value is replaced by "no candidate yet", which picks the same page.
- `swap_page` (mem_simulator/sim_mem.cpp:253-278) is not modelled. It has no caller.
- `print_memory`, `print_swap` and `print_page_table` (mem_simulator/sim_mem.cpp:281-344) and the destructor are not modelled. They only write to the console or release resources.
- `malloc`, `free` and `delete[]` of temporary buffers are not modelled; buffers are sequences. The global `main_memory` is an array field of the class.
- `main` (mem_simulator/main.cpp) is modelled only as the scenario proved in `PagingProperties.MainScenario`.
- The source's 32-bit `int` arithmetic is unbounded here. With at most 200 bytes of memory, no product of the model reaches the 32-bit range for the sizes `main` uses, but overflow for huge configurations is not modelled.
- SimMemory.SimMem.constructor: requires `0 < page_size <= MEMORY_SIZE` and an executable of at least `text_size + data_size` bytes. The source checks neither: it divides by `page_size`, and with a larger page it has no frame at all.
- SimMemory.SimMem.Load: when the guard refuses the fault, the source still stamps `ref_time` and reads memory at a negative index (Findings row 2). The model reports `UninitializedHeapAccess` and changes nothing.
- SimMemory.SimMem.Store: when the page index is past the page table, the source indexes it anyway (Findings row 1). The model reports `PageOutOfRange` and changes nothing. `load` and `store` return a status that the source does not have.
- The write-back of `unload_page` is never read back: a page that faults is clean (`PagingProperties.FaultNeverReadsSwap`), so the swap branch of `load_page` (mem_simulator/sim_mem.cpp:146) cannot fire. The model therefore makes no claim of a store, evict, load round trip through swap. It does not prove that such a round trip fails either.

## Findings

| source | as written | input that shows it | evidently intended | confidence | as-written member | corrected member |
|---|---|---|---|---|---|---|
| mem_simulator/sim_mem.cpp:78-87 | `load` and `store` check the address only against `MEMORY_SIZE`, then index the page table by `address / page_size` | `main`'s configuration (8 pages of 16 bytes) and address 150, which names page 9 | refuse addresses whose page is not in the page table (the property is proved in `PagingProperties.TranslateMeaning`) | not executed | Findings.AddressPastPageTable | PagingSpec.Translate |
| mem_simulator/sim_mem.cpp:87-98 | after `load_page` refuses a heap/stack fault, `load` goes on with frame -1 and reads at a negative physical address | `main`'s configuration, a fresh engine and `load(100)`: page 6, offset 4, physical address -12 | report an error and change nothing (proved in `PagingProperties.HeapGuardChangesNothing` and `PagingProperties.LoadStatus`) | not executed | Findings.LoadAfterRefusedFault | PagingSpec.LoadAt |
| mem_simulator/sim_mem.cpp:250 | `unload_page(index)` frees `frames_status[index]`, the slot numbered like the page | three 67-byte pages and two frames; on a fresh engine, `store` at 67, 0, 67, 134 and 0: the fourth store evicts page 0 from frame 1 but frees frame 0, and the fifth installs page 0 over page 1 in frame 0 | free the frame the page held, as the comment at line 243 says (proved in `PagingSpec.UnloadPage`'s contract, `PagingProperties.UnloadWritesBack` and `PagingProperties.NoSharedFrames`) | not executed | Findings.UnloadFreesWrongFrame | PagingSpec.UnloadPage |
