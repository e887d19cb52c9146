/** Three places where `sim_mem` as written does not do what it evidently
    means. Each is modelled here as written, next to a concrete input that
    shows the discrepancy; the corrected behaviour is the one `PagingSpec`
    and `SimMemory` model and `PagingProperties` proves things about. */
module Findings {
  import opened PagingSpec
  import PagingProperties
  import Arith

  /** The configuration built by the repository's `main`: text 16, data 16,
      bss 32, heap/stack 32 bytes, 16-byte pages, 8 pages. */
  const MainConfig: Config := Config(16, 16, 32, 32, 16, 8)

  // ---------------------------------------------------------------------
  // 1. `load` and `store` check the address against MEMORY_SIZE only.

  /** The page `load` and `store` go on to index for `address`, as written:
      any address inside physical memory is accepted. */
  function PageIndexAsWritten(c: Config, address: int): (r: Option<nat>)
    requires c.WellFormed()
    ensures r.Some? <==> 0 <= address < MEMORY_SIZE
    ensures r.Some? ==> r.value * c.pageSize <= address
  {
    if address < 0 || address >= MEMORY_SIZE then None
    else
      PagingProperties.TranslateMeaning(c, address);
      Some(address / c.pageSize)
  }

  /** With `main`'s configuration the page table has 8 pages (128 bytes),
      yet address 150 passes the check and names page 9. The corrected
      `Translate` reports `PageOutOfRange` instead. */
  lemma AddressPastPageTable()
    ensures PageIndexAsWritten(MainConfig, 150) == Some(9)
    ensures 9 >= MainConfig.numOfPages
    ensures Translate(MainConfig, 150) == OutOfRange(PageOutOfRange)
  {
  }

  // ---------------------------------------------------------------------
  // 2. `load` goes on after `load_page` refused a heap/stack page.

  /** The physical address `load` computes from the page's frame number, as
      written: negative whenever the frame number is. */
  function PhysicalAddressAsWritten(frame: int, offset: nat, ps: nat): (a: int)
    requires offset < ps
    ensures a < 0 <==> frame < 0
  {
    NegativeBase(frame, offset, ps);
    frame * ps + offset
  }

  lemma NegativeBase(frame: int, offset: nat, ps: nat)
    requires offset < ps
    ensures frame * ps + offset < 0 <==> frame < 0
  {
    if frame < 0 {
      Arith.MulMonotone(1, -frame, ps);
      assert frame * ps == -((-frame) * ps);
    } else {
      Arith.MulMonotone(0, frame, ps);
    }
  }

  /** With `main`'s configuration, address 100 is byte 4 of page 6, a
      heap/stack page. On a fresh engine `load(100)` is refused by the guard,
      the page keeps frame -1, and the address `load` then reads is -12. The
      corrected `Load` reports `UninitializedHeapAccess` and changes nothing. */
  lemma LoadAfterRefusedFault()
    ensures var s := Initial(MainConfig);
      && Translate(MainConfig, 100) == InRange(6, 4)
      && HeapGuardRejects(MainConfig, 6, true, ContentSource(MainConfig, 6, s.pageTable[6].dirty))
      && s.pageTable[6].frame == NO_FRAME
      && PhysicalAddressAsWritten(s.pageTable[6].frame, 4, MainConfig.pageSize) == -12
      && forall exe: seq<byte> | ImageFits(MainConfig, exe) ::
           Load(MainConfig, exe, s, 100) == LoadResult(s, 0, UninitializedHeapAccess)
  {
    var s := Initial(MainConfig);
    forall exe: seq<byte> | ImageFits(MainConfig, exe)
      ensures Load(MainConfig, exe, s, 100) == LoadResult(s, 0, UninitializedHeapAccess)
    {
      PagingProperties.HeapGuardChangesNothing(MainConfig, exe, s, 100, 6, 4);
    }
  }

  // ---------------------------------------------------------------------
  // 3. `unload_page(index)` frees `frames_status[index]`.

  /** What the engine as written needs of a state to take a step inside its
      arrays: the sizes of the tables and areas, and a frame of physical
      memory named by every resident page. Unlike `Inv`, it says nothing of
      the frame table's agreement with the page table. */
  ghost predicate Shaped(c: Config, s: State) {
    && c.WellFormed()
    && |s.pageTable| == c.numOfPages
    && |s.frames| == c.FrameCount()
    && |s.memory| == MEMORY_SIZE
    && |s.swap| == c.SwapSize()
    && forall p :: 0 <= p < |s.pageTable| && s.pageTable[p].valid ==> 0 <= s.pageTable[p].frame < |s.frames|
  }

  /** `unload_page(v)` as written: a dirty page is written back into swap
      slot `v`, the entry is cleared, and the frame-table slot freed is the
      one numbered like the page, not the frame the page held. */
  function UnloadPageAsWritten(c: Config, s: State, v: nat): (r: State)
    requires Shaped(c, s) && v < |s.pageTable| && s.pageTable[v].valid && v < |s.frames|
    ensures Shaped(c, r)
    ensures r.frames[v] == FREE && !r.pageTable[v].valid
    ensures r.pageTable[v] == s.pageTable[v].(valid := false, frame := NO_FRAME, dirty := false, swapIndex := NO_SWAP)
    ensures forall f :: 0 <= f < |s.frames| && f != v ==> r.frames[f] == s.frames[f]
    ensures forall p :: 0 <= p < |s.pageTable| && p != v ==> r.pageTable[p] == s.pageTable[p]
    ensures r.memory == s.memory && r.clock == s.clock && r.swap == SwapAfterUnload(c, s, v)
  {
    var e := s.pageTable[v];
    s.(swap := SwapAfterUnload(c, s, v),
       pageTable := s.pageTable[v := e.(valid := false, frame := NO_FRAME, dirty := false, swapIndex := NO_SWAP)],
       frames := s.frames[v := FREE])
  }

  /** The swap area after `unload_page(v)`, as written and as corrected
      alike: a dirty page's frame is written into swap slot `v` and no other
      swap byte changes; a clean page leaves the swap area as it was. */
  function SwapAfterUnload(c: Config, s: State, v: nat): (w: seq<byte>)
    requires Shaped(c, s) && v < |s.pageTable| && s.pageTable[v].valid
    ensures |w| == |s.swap|
    ensures !s.pageTable[v].dirty ==> w == s.swap
    ensures s.pageTable[v].dirty ==>
      && 0 <= s.pageTable[v].frame
      && s.pageTable[v].frame * c.pageSize + c.pageSize <= |s.memory|
      && v * c.pageSize + c.pageSize <= |s.swap|
      && w[v * c.pageSize .. v * c.pageSize + c.pageSize] ==
           s.memory[s.pageTable[v].frame * c.pageSize .. s.pageTable[v].frame * c.pageSize + c.pageSize]
      && forall a :: 0 <= a < |s.swap| && !(v * c.pageSize <= a < v * c.pageSize + c.pageSize) ==> w[a] == s.swap[a]
  {
    var e := s.pageTable[v];
    FrameInMemory(c, e.frame);
    Arith.PageWithin(v, c.numOfPages, c.pageSize);
    if e.dirty then
      var page := s.memory[e.frame * c.pageSize .. e.frame * c.pageSize + c.pageSize];
      Overwrite(s.swap, v * c.pageSize, page)
    else s.swap
  }

  /** The end of `load_page` as written: page `index` mapped into frame `f`,
      which receives `buf`, whatever the frame table said of `f` before. */
  function InstallAsWritten(c: Config, s: State, index: nat, f: nat, buf: seq<byte>): (r: State)
    requires Shaped(c, s) && index < |s.pageTable| && f < |s.frames| && |buf| == c.pageSize
    ensures Shaped(c, r)
    ensures r.pageTable[index].valid && r.pageTable[index].frame == f && r.frames[f] == index
    ensures forall g :: 0 <= g < |s.frames| && g != f ==> r.frames[g] == s.frames[g]
    ensures forall p :: 0 <= p < |s.pageTable| && p != index ==> r.pageTable[p] == s.pageTable[p]
  {
    FrameInMemory(c, f);
    s.(memory := Overwrite(s.memory, f * c.pageSize, buf),
       pageTable := s.pageTable[index := s.pageTable[index].(valid := true, frame := f, dirty := false, swapIndex := NO_SWAP)],
       frames := s.frames[f := index])
  }

  /** A store-mode `load_page(index)` as written, None where the source
      leaves its arrays: no victim (`page_table[-1]`), or a victim numbered
      past the frame table (`frames_status[victim]`). */
  function StoreFaultAsWritten(c: Config, exe: seq<byte>, s: State, index: nat): (r: Option<State>)
    requires Shaped(c, s) && ImageFits(c, exe) && index < |s.pageTable|
    ensures r.Some? ==> Shaped(c, r.value) && r.value.pageTable[index].valid
  {
    var src := ContentSource(c, index, s.pageTable[index].dirty);
    var free := FirstFree(s.frames);
    if free != -1 then
      Some(InstallAsWritten(c, s, index, free, SourcePage(c, exe, s.swap, index, src)))
    else
      var v := ChooseVictim(s.pageTable);
      if v == -1 || v >= |s.frames| then None
      else
        var s1 := UnloadPageAsWritten(c, s, v);
        Some(InstallAsWritten(c, s1, index, s.pageTable[v].frame, SourcePage(c, exe, s1.swap, index, src)))
  }

  /** `store(address, value)` as written, None where the source leaves its
      arrays. The bounds check is the source's, so an address past the page
      table is None too (finding 1). */
  function StoreAsWritten(c: Config, exe: seq<byte>, s: State, address: int, value: byte): (r: Option<State>)
    requires Shaped(c, s) && ImageFits(c, exe)
    ensures r.Some? ==> Shaped(c, r.value)
    ensures r.Some? && 0 <= address < MEMORY_SIZE ==>
      address / c.pageSize < c.numOfPages && r.value.pageTable[address / c.pageSize].valid &&
      r.value.pageTable[address / c.pageSize].dirty
  {
    if address < 0 || address >= MEMORY_SIZE then Some(s)
    else
      var page, offset := address / c.pageSize, address % c.pageSize;
      if page >= c.numOfPages then None
      else
        var s1 := if s.pageTable[page].valid then Some(s) else StoreFaultAsWritten(c, exe, s, page);
        match s1
        case None => None
        case Some(s1) => Some(WriteResidentAsWritten(c, s1, page, offset, value))
  }

  /** The access part of `store` as written: write the byte at the page's
      frame, mark the page dirty and stamp it with the next clock value. */
  function WriteResidentAsWritten(c: Config, s: State, page: nat, offset: nat, value: byte): (r: State)
    requires Shaped(c, s) && page < |s.pageTable| && s.pageTable[page].valid && offset < c.pageSize
    ensures Shaped(c, r) && r.pageTable[page].valid && r.pageTable[page].dirty
    ensures r.frames == s.frames && r.clock == s.clock + 1
    ensures r.pageTable[page].frame == s.pageTable[page].frame && r.pageTable[page].refTime == r.clock
    ensures forall p :: 0 <= p < |s.pageTable| && p != page ==> r.pageTable[p] == s.pageTable[p]
    ensures r.swap == s.swap && |r.memory| == |s.memory|
    ensures forall i :: 0 <= i < |s.memory| ==>
      r.memory[i] == if i == s.pageTable[page].frame * c.pageSize + offset then value else s.memory[i]
  {
    var frame := s.pageTable[page].frame;
    FrameInMemory(c, frame);
    var clock := s.clock + 1;
    s.(memory := s.memory[frame * c.pageSize + offset := value],
       pageTable := s.pageTable[page := s.pageTable[page].(dirty := true, refTime := clock)],
       clock := clock)
  }

  /** Three 67-byte pages, two frames, and no executable content. */
  const ThreePages: Config := Config(0, 0, 0, 0, 67, 3)

  /** A resident dirty page in frame `f`, last used at time `t`. */
  function Dirty(f: int, t: nat): PageDescriptor {
    PageDescriptor(true, f, true, NO_SWAP, t)
  }

  /** A page unloaded after it was last used at time `t`. */
  function Gone(t: nat): PageDescriptor {
    PageDescriptor(false, NO_FRAME, false, NO_SWAP, t)
  }

  /** The tables and the clock of a state of the run below. */
  predicate Tables(s: State, pt: seq<PageDescriptor>, frames: seq<int>, clock: nat) {
    s.pageTable == pt && s.frames == frames && s.clock == clock
  }

  lemma FirstStore(s: State)
    requires Shaped(ThreePages, s) && Tables(s, [UNMAPPED, UNMAPPED, UNMAPPED], [FREE, FREE], 0)
    ensures var r := StoreAsWritten(ThreePages, [], s, 67, 1);
      r.Some? && Tables(r.value, [UNMAPPED, Dirty(0, 1), UNMAPPED], [1, FREE], 1)
  {
    assert FirstFree(s.frames) == 0;
  }

  lemma SecondStore(s: State)
    requires Shaped(ThreePages, s) && Tables(s, [UNMAPPED, Dirty(0, 1), UNMAPPED], [1, FREE], 1)
    ensures var r := StoreAsWritten(ThreePages, [], s, 0, 2);
      r.Some? && Tables(r.value, [Dirty(1, 2), Dirty(0, 1), UNMAPPED], [1, 0], 2)
  {
    assert FirstFree(s.frames[1..]) == 0;
    assert FirstFree(s.frames) == 1;
  }

  lemma ThirdStore(s: State)
    requires Shaped(ThreePages, s) && Tables(s, [Dirty(1, 2), Dirty(0, 1), UNMAPPED], [1, 0], 2)
    ensures var r := StoreAsWritten(ThreePages, [], s, 67, 3);
      r.Some? && Tables(r.value, [Dirty(1, 2), Dirty(0, 3), UNMAPPED], [1, 0], 3)
  {
  }

  /** The store that evicts page 0 from frame 1 and, as written, frees
      frame 0 instead. */
  lemma FourthStore(s: State)
    requires Shaped(ThreePages, s) && Tables(s, [Dirty(1, 2), Dirty(0, 3), UNMAPPED], [1, 0], 3)
    ensures var r := StoreAsWritten(ThreePages, [], s, 134, 4);
      r.Some? && Tables(r.value, [Gone(2), Dirty(0, 3), Dirty(1, 4)], [FREE, 2], 4)
  {
    var pt := s.pageTable;
    assert FirstFree(s.frames[1..][1..]) == -1;
    assert FirstFree(s.frames[1..]) == -1;
    assert FirstFree(s.frames) == -1;
    assert FirstClean(pt[1..][1..]) == -1;
    assert FirstClean(pt[1..]) == -1;
    assert FirstClean(pt) == -1;
    assert pt[..2][..1] == [Dirty(1, 2)];
    assert LruVictim(pt[..2][..1]) == 0;
    assert LruVictim(pt[..2]) == 0;
    assert LruVictim(pt) == 0;
    assert ChooseVictim(pt) == 0;
  }

  lemma FifthStore(s: State)
    requires Shaped(ThreePages, s) && Tables(s, [Gone(2), Dirty(0, 3), Dirty(1, 4)], [FREE, 2], 4)
    ensures var r := StoreAsWritten(ThreePages, [], s, 0, 5);
      r.Some? && Tables(r.value, [Dirty(0, 5), Dirty(0, 3), Dirty(1, 4)], [0, 2], 5)
  {
    assert FirstFree(s.frames) == 0;
  }

  /** From a fresh engine with `ThreePages`, the stores at 67, 0, 67 put
      page 1 in frame 0 and page 0 in frame 1, with page 0 least recently
      used. The store at 134 then evicts page 0 from frame 1 and, as
      written, frees frame 0, which page 1 still holds; the store at 0 then
      installs page 0 in frame 0, so two resident pages share one frame.
      The corrected engine never lets that happen (`NoSharedFrames`). */
  lemma UnloadFreesWrongFrame()
    ensures var c := ThreePages;
      var s0 := Initial(c);
      && Shaped(c, s0)
      && var s1 := StoreAsWritten(c, [], s0, 67, 1);
      && s1.Some?
      && var s2 := StoreAsWritten(c, [], s1.value, 0, 2);
      && s2.Some?
      && var s3 := StoreAsWritten(c, [], s2.value, 67, 3);
      && s3.Some? && s3.value.pageTable[0].frame == 1 && s3.value.pageTable[1].frame == 0
      && var s4 := StoreAsWritten(c, [], s3.value, 134, 4);
      && s4.Some? && s4.value.frames[0] == FREE
      && s4.value.pageTable[1].valid && s4.value.pageTable[1].frame == 0
      && var s5 := StoreAsWritten(c, [], s4.value, 0, 5);
      && s5.Some? && s5.value.frames == [0, 2]
      && s5.value.pageTable[0].valid && s5.value.pageTable[1].valid
      && s5.value.pageTable[0].frame == 0 && s5.value.pageTable[1].frame == 0
  {
    var c := ThreePages;
    var s0 := Initial(c);
    assert Tables(s0, [UNMAPPED, UNMAPPED, UNMAPPED], [FREE, FREE], 0);
    FirstStore(s0);
    var s1 := StoreAsWritten(c, [], s0, 67, 1).value;
    SecondStore(s1);
    var s2 := StoreAsWritten(c, [], s1, 0, 2).value;
    ThirdStore(s2);
    var s3 := StoreAsWritten(c, [], s2, 67, 3).value;
    FourthStore(s3);
    var s4 := StoreAsWritten(c, [], s3, 134, 4).value;
    FifthStore(s4);
  }
}
