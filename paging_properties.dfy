/** What the paging engine guarantees, proved about the functions of
    `PagingSpec`: the meaning of the invariant, of address translation, of
    the content-source and frame-choice rules, and what one `load_page`,
    `unload_page`, `load` or `store` does to the state. */
module PagingProperties {
  import opened PagingSpec
  import Arith

  // ---------------------------------------------------------------------
  // Construction and the invariant

  /** The constructor leaves no page resident and every byte zero, and the
      first fault will be served from frame 0. */
  lemma InitialState(c: Config)
    requires c.WellFormed()
    ensures var s := Initial(c);
      && |s.pageTable| == c.numOfPages
      && (forall p :: 0 <= p < |s.pageTable| ==> !s.pageTable[p].valid && !s.pageTable[p].dirty)
      && (forall a :: 0 <= a < |s.memory| ==> s.memory[a] == 0)
      && |s.swap| == c.numOfPages * c.pageSize
      && (forall a :: 0 <= a < |s.swap| ==> s.swap[a] == 0)
      && s.clock == 0
      && TargetFrame(c, s) == 0
  {
    var s := Initial(c);
    assert c.FrameCount() >= 1;
    assert s.frames[0] == FREE;
  }

  /** No two resident pages share a frame. */
  lemma NoSharedFrames(c: Config, s: State)
    requires Inv(c, s)
    ensures forall p, q :: 0 <= p < |s.pageTable| && 0 <= q < |s.pageTable| && p != q &&
                           s.pageTable[p].valid && s.pageTable[q].valid ==>
                           s.pageTable[p].frame != s.pageTable[q].frame
  {
    forall p, q | 0 <= p < |s.pageTable| && 0 <= q < |s.pageTable| && p != q &&
                  s.pageTable[p].valid && s.pageTable[q].valid
      ensures s.pageTable[p].frame != s.pageTable[q].frame
    {
      assert EntryOk(s, p);
      assert EntryOk(s, q);
    }
  }

  /** A page that is not resident has no frame and is clean. */
  lemma NonResidentIsClean(c: Config, s: State)
    requires Inv(c, s)
    ensures forall p :: 0 <= p < |s.pageTable| && !s.pageTable[p].valid ==>
                        s.pageTable[p].frame == NO_FRAME && !s.pageTable[p].dirty
  {
    forall p | 0 <= p < |s.pageTable| && !s.pageTable[p].valid
      ensures s.pageTable[p].frame == NO_FRAME && !s.pageTable[p].dirty
    {
      assert EntryOk(s, p);
    }
  }

  // ---------------------------------------------------------------------
  // Address translation

  /** An address is translated exactly when it is inside physical memory and
      inside the page table, and then it splits into its page and offset. */
  lemma TranslateMeaning(c: Config, address: int)
    requires c.WellFormed()
    ensures Translate(c, address).InRange? <==>
            0 <= address < MEMORY_SIZE && address < c.numOfPages * c.pageSize
    ensures Translate(c, address).InRange? ==>
            Translate(c, address).page * c.pageSize + Translate(c, address).offset == address
    ensures Translate(c, address) == OutOfRange(OutOfBounds) <==> address < 0 || address >= MEMORY_SIZE
  {
    if 0 <= address < MEMORY_SIZE {
      Arith.DivBelow(address, c.numOfPages, c.pageSize);
    }
  }

  /** Byte `offset` of page `page` translates back to that page and offset. */
  lemma TranslatePageByte(c: Config, page: nat, offset: nat)
    requires c.WellFormed() && page < c.numOfPages && offset < c.pageSize
    requires page * c.pageSize + offset < MEMORY_SIZE
    ensures Translate(c, page * c.pageSize + offset) == InRange(page, offset)
  {
    Arith.SplitOfByte(page, offset, c.pageSize);
  }

  /** The physical address of a resident byte lies in the page's frame, at
      the byte's offset. */
  lemma PhysicalAddressSplits(c: Config, s: State, page: nat, offset: nat)
    requires Inv(c, s) && page < |s.pageTable| && s.pageTable[page].valid && offset < c.pageSize
    ensures PhysicalAddress(c, s, page, offset) / c.pageSize == s.pageTable[page].frame
    ensures PhysicalAddress(c, s, page, offset) % c.pageSize == offset
  {
    assert EntryOk(s, page);
    Arith.SplitOfByte(s.pageTable[page].frame, offset, c.pageSize);
  }

  /** Distinct bytes of resident pages have distinct physical addresses. */
  lemma PhysicalAddressInjective(c: Config, s: State, p: nat, j: nat, q: nat, k: nat)
    requires Inv(c, s) && p < |s.pageTable| && q < |s.pageTable|
    requires s.pageTable[p].valid && s.pageTable[q].valid && j < c.pageSize && k < c.pageSize
    requires p != q || j != k
    ensures PhysicalAddress(c, s, p, j) != PhysicalAddress(c, s, q, k)
  {
    if p != q {
      NoSharedFrames(c, s);
      assert EntryOk(s, p);
      assert EntryOk(s, q);
      Arith.SlotsDisjoint(s.pageTable[p].frame, s.pageTable[q].frame, j, k, c.pageSize);
    }
  }

  // ---------------------------------------------------------------------
  // Where a faulting page's content comes from

  datatype Segment = Text | Data | Bss | HeapStack

  /** The segment that holds the first byte of page `index`. */
  function SegmentOf(c: Config, index: nat): Segment {
    var first := index * c.pageSize;
    if first < c.textSize then Text
    else if first < c.textSize + c.dataSize then Data
    else if first < c.textSize + c.dataSize + c.bssSize then Bss
    else HeapStack
  }

  /** Every segment boundary falls on a page boundary. */
  predicate Aligned(c: Config) {
    && c.WellFormed()
    && c.textSize % c.pageSize == 0
    && (c.textSize + c.dataSize) % c.pageSize == 0
    && (c.textSize + c.dataSize + c.bssSize) % c.pageSize == 0
  }

  /** With page-aligned segments, the page-index rule of `load_page` is the
      segment rule: text pages come from the executable; a dirty page of any
      other segment from swap; a clean data page from the executable; a
      clean bss or heap/stack page is a zero page. */
  lemma ContentSourceBySegment(c: Config, index: nat, dirty: bool)
    requires Aligned(c)
    ensures ContentSource(c, index, dirty) ==
      match SegmentOf(c, index)
      case Text => Executable
      case Data => if dirty then Swap else Executable
      case _ => if dirty then Swap else Zero
  {
    Arith.AlignedBelow(index, c.textSize, c.pageSize);
    Arith.AlignedBelow(index, c.textSize + c.dataSize, c.pageSize);
  }

  /** With page-aligned segments, the heap/stack guard refuses exactly the
      load-mode faults of clean heap/stack pages. */
  lemma HeapGuardBySegment(c: Config, index: nat, isLoad: bool, dirty: bool)
    requires Aligned(c)
    ensures HeapGuardRejects(c, index, isLoad, ContentSource(c, index, dirty)) <==>
            isLoad && !dirty && SegmentOf(c, index) == HeapStack
  {
    ContentSourceBySegment(c, index, dirty);
    Arith.AlignedBelow(index, c.textSize + c.dataSize + c.bssSize, c.pageSize);
  }

  /** A page is faulted in only when it is not resident, and such a page is
      clean, so `load_page` never reads the swap area: what `unload_page`
      writes back is never read again. */
  lemma FaultNeverReadsSwap(c: Config, s: State, index: nat)
    requires Inv(c, s) && index < |s.pageTable| && !s.pageTable[index].valid
    ensures ContentSource(c, index, s.pageTable[index].dirty) != Swap
  {
    assert EntryOk(s, index);
  }

  // ---------------------------------------------------------------------
  // Frame choice

  /** The evicted page is resident. It is the lowest-numbered clean resident
      page if there is one; otherwise it has the smallest reference time of
      all resident pages, and every lower-numbered resident page has a
      strictly larger one. */
  lemma VictimChoice(pt: seq<PageDescriptor>)
    requires exists i :: 0 <= i < |pt| && pt[i].valid
    ensures var v := ChooseVictim(pt);
      && 0 <= v < |pt| && pt[v].valid
      && ((exists i :: 0 <= i < |pt| && CleanResident(pt[i])) ==>
            CleanResident(pt[v]) && forall i :: 0 <= i < v ==> !CleanResident(pt[i]))
      && ((forall i :: 0 <= i < |pt| ==> !CleanResident(pt[i])) ==>
            (forall i :: 0 <= i < |pt| && pt[i].valid ==> pt[v].refTime <= pt[i].refTime) &&
            (forall i :: 0 <= i < v && pt[i].valid ==> pt[v].refTime < pt[i].refTime))
  {
  }

  /** A fault takes the lowest-numbered free frame without evicting anything;
      only when every frame is held does it evict `ChooseVictim` and reuse
      the victim's frame. */
  lemma FrameChoice(c: Config, s: State)
    requires Inv(c, s)
    ensures FirstFree(s.frames) != -1 ==>
            TargetFrame(c, s) == FirstFree(s.frames) && MakeRoom(c, s) == s
    ensures FirstFree(s.frames) == -1 ==>
            var v := ChooseVictim(s.pageTable);
            && 0 <= v < |s.pageTable| && s.pageTable[v].valid
            && TargetFrame(c, s) == s.pageTable[v].frame
            && MakeRoom(c, s) == UnloadPage(c, s, v)
  {
    if FirstFree(s.frames) == -1 {
      EvictionFindsVictim(c, s);
    }
  }

  /** The page touched last has the newest reference time: no other page
      has one as large. */
  lemma TouchMakesNewest(c: Config, s: State, page: nat)
    requires Inv(c, s) && page < |s.pageTable|
    ensures var r := Touch(c, s, page);
      && r.clock == s.clock + 1 && r.pageTable[page].refTime == r.clock
      && forall q :: 0 <= q < |r.pageTable| && q != page ==> r.pageTable[q].refTime < r.pageTable[page].refTime
  {
    var r := Touch(c, s, page);
    forall q | 0 <= q < |r.pageTable| && q != page
      ensures r.pageTable[q].refTime < r.pageTable[page].refTime
    {
      assert EntryOk(s, q);
    }
  }

  /** So the page touched last is not the least recently used page while
      some other page is resident. */
  lemma TouchedPageIsNotLru(c: Config, s: State, page: nat, other: nat)
    requires Inv(c, s) && page < |s.pageTable| && other < |s.pageTable|
    requires other != page && s.pageTable[other].valid
    ensures LruVictim(Touch(c, s, page).pageTable) != page
  {
    TouchMakesNewest(c, s, page);
    var pt := Touch(c, s, page).pageTable;
    assert pt[other].valid && pt[other].refTime < pt[page].refTime;
  }

  // ---------------------------------------------------------------------
  // unload_page and load_page

  /** `unload_page(v)`: page `v` is no longer resident and clean; a dirty
      page's frame bytes are now in swap slot `v` and no other swap byte
      changed; a clean page leaves the swap area as it was. */
  lemma UnloadWritesBack(c: Config, s: State, v: nat)
    requires Inv(c, s) && v < |s.pageTable| && s.pageTable[v].valid
    ensures var r := UnloadPage(c, s, v); var e := s.pageTable[v];
      && !r.pageTable[v].valid && !r.pageTable[v].dirty && r.pageTable[v].frame == NO_FRAME
      && 0 <= e.frame && e.frame * c.pageSize + c.pageSize <= |s.memory|
      && v * c.pageSize + c.pageSize <= |s.swap| && |r.swap| == |s.swap|
      && (e.dirty ==>
            r.swap[v * c.pageSize .. v * c.pageSize + c.pageSize] ==
              s.memory[e.frame * c.pageSize .. e.frame * c.pageSize + c.pageSize])
      && (e.dirty ==>
            forall a :: 0 <= a < |s.swap| && !(v * c.pageSize <= a < v * c.pageSize + c.pageSize) ==>
              r.swap[a] == s.swap[a])
      && (!e.dirty ==> r.swap == s.swap)
  {
    var e := s.pageTable[v];
    assert EntryOk(s, v);
    FrameInMemory(c, e.frame);
    Arith.PageWithin(v, c.numOfPages, c.pageSize);
    SwapContentIsFree(c, s, WriteBack(c, s, v));
  }

  /** `load_page(index)` when the guard lets it through: the page is resident
      in `TargetFrame`, clean, the frame is marked as held by it, the
      frame's bytes are the page's content from its source, and no other
      byte of physical memory changed. */
  lemma LoadPageInstalls(c: Config, exe: seq<byte>, s: State, index: nat)
    requires Inv(c, s) && ImageFits(c, exe) && index < |s.pageTable| && !s.pageTable[index].valid
    ensures var r := PageIn(c, exe, s, index); var f := TargetFrame(c, s);
      && r.pageTable[index] == s.pageTable[index].(valid := true, frame := f)
      && !r.pageTable[index].dirty && r.pageTable[index].swapIndex == NO_SWAP
      && r.frames[f] == index
      && f * c.pageSize + c.pageSize <= |r.memory|
      && r.memory[f * c.pageSize .. f * c.pageSize + c.pageSize] ==
           SourcePage(c, exe, s.swap, index, ContentSource(c, index, false))
      && (forall a :: 0 <= a < |s.memory| && !(f * c.pageSize <= a < f * c.pageSize + c.pageSize) ==>
            r.memory[a] == s.memory[a])
      && r.clock == s.clock
  {
    assert EntryOk(s, index);
    var f := TargetFrame(c, s);
    FrameInMemory(c, f);
    var s1 := MakeRoom(c, s);
    var buf := SourcePage(c, exe, s1.swap, index, ContentSource(c, index, false));
    assert buf == SourcePage(c, exe, s.swap, index, ContentSource(c, index, false));
    assert s1.memory == s.memory;
  }

  /** When some frame is free, `load_page` evicts nothing: every other page
      and the swap area are as they were. */
  lemma LoadPageWithFreeFrame(c: Config, exe: seq<byte>, s: State, index: nat, isLoad: bool)
    requires Inv(c, s) && ImageFits(c, exe) && index < |s.pageTable| && !s.pageTable[index].valid
    requires !HeapGuardRejects(c, index, isLoad, ContentSource(c, index, s.pageTable[index].dirty))
    requires FirstFree(s.frames) != -1
    ensures var r := LoadPage(c, exe, s, index, isLoad).value;
      && TargetFrame(c, s) == FirstFree(s.frames)
      && (forall p :: 0 <= p < |s.pageTable| && p != index ==> r.pageTable[p] == s.pageTable[p])
      && r.swap == s.swap
  {
  }

  /** When every frame is held, `load_page` unloads `ChooseVictim` and only
      it: the victim is no longer resident, every page other than the victim
      and the faulting one is unchanged. */
  lemma LoadPageEvicts(c: Config, exe: seq<byte>, s: State, index: nat, isLoad: bool)
    requires Inv(c, s) && ImageFits(c, exe) && index < |s.pageTable| && !s.pageTable[index].valid
    requires !HeapGuardRejects(c, index, isLoad, ContentSource(c, index, s.pageTable[index].dirty))
    requires FirstFree(s.frames) == -1
    ensures var r := LoadPage(c, exe, s, index, isLoad).value; var v := ChooseVictim(s.pageTable);
      && 0 <= v < |s.pageTable| && v != index
      && !r.pageTable[v].valid
      && TargetFrame(c, s) == s.pageTable[v].frame
      && (forall p :: 0 <= p < |s.pageTable| && p != index && p != v ==> r.pageTable[p] == s.pageTable[p])
  {
    EvictionFindsVictim(c, s);
  }

  // ---------------------------------------------------------------------
  // load and store

  /** An address outside physical memory or outside the page table changes
      nothing and reports why. */
  lemma OutOfRangeChangesNothing(c: Config, exe: seq<byte>, s: State, address: int, value: byte)
    requires Inv(c, s) && ImageFits(c, exe)
    requires address < 0 || address >= MEMORY_SIZE || address >= c.numOfPages * c.pageSize
    ensures Translate(c, address).OutOfRange?
    ensures Load(c, exe, s, address) == LoadResult(s, 0, Translate(c, address).error)
    ensures Store(c, exe, s, address, value) == StoreResult(s, Translate(c, address).error)
  {
    TranslateMeaning(c, address);
  }

  /** `load` ends normally exactly when the address is in range and the page
      is resident or the heap/stack guard lets its fault through; otherwise
      it changes nothing. */
  lemma LoadStatus(c: Config, exe: seq<byte>, s: State, address: int)
    requires Inv(c, s) && ImageFits(c, exe)
    ensures var r := Load(c, exe, s, address); var t := Translate(c, address);
      && (r.status == Ok <==>
            t.InRange? &&
            (s.pageTable[t.page].valid ||
             !HeapGuardRejects(c, t.page, true, ContentSource(c, t.page, s.pageTable[t.page].dirty))))
      && (r.status != Ok ==> r.state == s && r.value == 0)
  {
  }

  /** A load-mode fault the guard refuses leaves the state as it was. */
  lemma HeapGuardChangesNothing(c: Config, exe: seq<byte>, s: State, address: int, page: nat, offset: nat)
    requires Inv(c, s) && ImageFits(c, exe) && Translate(c, address) == InRange(page, offset)
    requires !s.pageTable[page].valid
    requires HeapGuardRejects(c, page, true, ContentSource(c, page, s.pageTable[page].dirty))
    ensures Load(c, exe, s, address) == LoadResult(s, 0, UninitializedHeapAccess)
  {
  }

  /** A `store` is never refused once its address is in range. */
  lemma StoreStatus(c: Config, exe: seq<byte>, s: State, address: int, value: byte)
    requires Inv(c, s) && ImageFits(c, exe)
    ensures Store(c, exe, s, address, value).status == Ok <==> Translate(c, address).InRange?
  {
  }

  /** A load of a resident page faults nothing: it returns the byte at the
      page's physical address and only stamps the page. */
  lemma LoadOfResidentPage(c: Config, exe: seq<byte>, s: State, address: int, page: nat, offset: nat)
    requires Inv(c, s) && ImageFits(c, exe) && Translate(c, address) == InRange(page, offset)
    requires s.pageTable[page].valid
    ensures Load(c, exe, s, address) ==
            LoadResult(Touch(c, s, page), s.memory[PhysicalAddress(c, s, page, offset)], Ok)
  {
  }

  /** After `store(address, value)` the page is resident and dirty, holds
      `value` at the address's offset, and is the most recently used page. */
  lemma StoreWritesByte(c: Config, exe: seq<byte>, s: State, address: int, value: byte, page: nat, offset: nat)
    requires Inv(c, s) && ImageFits(c, exe) && Translate(c, address) == InRange(page, offset)
    ensures var r := Store(c, exe, s, address, value).state;
      && r.pageTable[page].valid && r.pageTable[page].dirty
      && r.memory[PhysicalAddress(c, r, page, offset)] == value
      && r.clock == s.clock + 1 && r.pageTable[page].refTime == r.clock
      && forall q :: 0 <= q < |r.pageTable| && q != page ==> r.pageTable[q].refTime < r.pageTable[page].refTime
  {
    var s1 := Fault(c, exe, s, page, false).value;
    var s2 := WriteByte(c, s1, page, offset, value);
    TouchMakesNewest(c, s2, page);
  }

  /** A store changes nothing beyond its own byte and its page's entry,
      apart from what its fault changed: with `s1` the state after the fault
      (the old state for a resident page, `PageIn` of it otherwise, as
      `LoadPageInstalls` describes), the frame table, the swap area, every
      other page's entry and every other byte of memory are those of `s1`. */
  lemma StoreChangesOnlyItsByte(c: Config, exe: seq<byte>, s: State, address: int, value: byte, page: nat, offset: nat)
    requires Inv(c, s) && ImageFits(c, exe) && Translate(c, address) == InRange(page, offset)
    ensures var s1 := if s.pageTable[page].valid then s else PageIn(c, exe, s, page);
      var r := Store(c, exe, s, address, value).state;
      && Inv(c, s1) && s1.pageTable[page].valid && |r.memory| == |s1.memory|
      && r.frames == s1.frames && r.swap == s1.swap
      && (forall q :: 0 <= q < |s.pageTable| && q != page ==> r.pageTable[q] == s1.pageTable[q])
      && (forall i :: 0 <= i < |s1.memory| && i != PhysicalAddress(c, s1, page, offset) ==>
            r.memory[i] == s1.memory[i])
  {
    var s1 := if s.pageTable[page].valid then s else PageIn(c, exe, s, page);
    assert Fault(c, exe, s, page, false) == Some(s1);
  }

  /** A load right after a store of the same address returns the stored
      byte, without a fault, and the page stays dirty. */
  lemma StoreThenLoad(c: Config, exe: seq<byte>, s: State, address: int, value: byte)
    requires Inv(c, s) && ImageFits(c, exe) && Translate(c, address).InRange?
    ensures var s2 := Store(c, exe, s, address, value).state; var r := Load(c, exe, s2, address);
      && r.status == Ok && r.value == value
      && r.state == Touch(c, s2, Translate(c, address).page)
      && r.state.pageTable[Translate(c, address).page].dirty
  {
    var page, offset := Translate(c, address).page, Translate(c, address).offset;
    StoreWritesByte(c, exe, s, address, value, page, offset);
    var s2 := Store(c, exe, s, address, value).state;
    LoadOfResidentPage(c, exe, s2, address, page, offset);
  }

  // ---------------------------------------------------------------------
  // The repository's `main`

  /** `main` builds an engine with text 16, data 16, bss 32, heap/stack 32
      bytes, 16-byte pages and 8 pages, stores 'X' at address 98 (byte 2 of
      heap/stack page 6, served as a zero page in frame 0), and loads address
      8 (byte 8 of text page 0, served from the executable in frame 1): the
      store succeeds and the load returns byte 8 of the executable. */
  lemma MainScenario(exe: seq<byte>)
    requires |exe| >= 32
    ensures var c := Config(16, 16, 32, 32, 16, 8);
      var st := Store(c, exe, Initial(c), 98, 'X' as byte);
      var ld := Load(c, exe, st.state, 8);
      && st.status == Ok
      && st.state.frames[0] == 6
      && ld.status == Ok && ld.value == exe[8]
  {
    var c := Config(16, 16, 32, 32, 16, 8);
    var s0 := Initial(c);
    assert Translate(c, 98) == InRange(6, 2);
    InitialState(c);
    LoadPageInstalls(c, exe, s0, 6);
    var s1 := PageIn(c, exe, s0, 6);
    assert Fault(c, exe, s0, 6, false) == Some(s1);
    assert s1.frames[0] == 6;
    var st := Store(c, exe, s0, 98, 'X' as byte);
    StoreChangesOnlyItsByte(c, exe, s0, 98, 'X' as byte, 6, 2);
    var s2 := st.state;
    assert Translate(c, 8) == InRange(0, 8);
    assert s2.frames[1] == FREE;
    assert FirstFree(s2.frames) == 1;
    FrameChoice(c, s2);
    LoadPageInstalls(c, exe, s2, 0);
    var s3 := PageIn(c, exe, s2, 0);
    assert Fault(c, exe, s2, 0, true) == Some(s3);
    assert s3.pageTable[0].frame == 1;
    assert PhysicalAddress(c, s3, 0, 8) == 24;
    assert s3.memory[16 .. 32] == exe[0 .. 16];
  }
}
