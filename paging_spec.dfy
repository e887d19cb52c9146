/** The paging engine of `sim_mem` stated on values.

    The engine's state is a `State`: the page table (one `PageDescriptor` per
    logical page), the frame-occupancy table (`FREE` or the number of the page
    held by each frame), the 200-byte physical memory, the swap area and the
    logical clock that replaces `clock()`. Each operation of the engine is a
    function from the old state to the new one; the class `SimMemory.SimMem`
    is proved to compute exactly these functions. `Inv` is the engine's
    invariant, and every operation here promises to keep it. */
module PagingSpec {
  import Arith

  type byte = bv8

  /** Size of the physical memory in bytes, and the only bound `load` and
      `store` check addresses against. */
  const MEMORY_SIZE: nat := 200

  /** Marker of a free frame slot in the frame table. */
  const FREE: int := -1
  /** Frame number of a page that is not resident. */
  const NO_FRAME: int := -1
  /** Swap index of a page descriptor; the engine never sets anything else. */
  const NO_SWAP: int := -1

  /** The engine's immutable configuration: segment sizes in bytes, the page
      size, and the number of logical pages. */
  datatype Config = Config(
    textSize: nat, dataSize: nat, bssSize: nat, heapStackSize: nat,
    pageSize: nat, numOfPages: nat)
  {
    /** Divisions by the page size are defined, and there is at least one
        frame, so that a fault can always be served. */
    predicate WellFormed() {
      0 < pageSize <= MEMORY_SIZE
    }

    /** Number of physical frames: MEMORY_SIZE / page_size, rounded down. */
    function FrameCount(): (n: nat)
      requires WellFormed()
      ensures n >= 1
    {
      MEMORY_SIZE / pageSize
    }

    /** Pages with a smaller index are read-only text pages. */
    function TextPages(): (n: nat)
      requires WellFormed()
      ensures n <= TextDataPages()
    {
      Arith.DivMonotone(textSize, textSize + dataSize, pageSize);
      textSize / pageSize
    }

    /** Pages with a smaller index are text or data pages. */
    function TextDataPages(): nat
      requires WellFormed()
    {
      (textSize + dataSize) / pageSize
    }

    /** Pages with a smaller index are text, data or bss pages; the rest are
        heap/stack pages. */
    function LoadedPages(): nat
      requires WellFormed()
    {
      (textSize + dataSize + bssSize) / pageSize
    }

    /** Number of bytes of the swap area, one page-sized slot per page. */
    function SwapSize(): nat {
      numOfPages * pageSize
    }
  }

  /** The executable holds every byte a text or data page can be read from. */
  predicate ImageFits(c: Config, exe: seq<byte>) {
    |exe| >= c.textSize + c.dataSize
  }

  /** One entry of the page table (`page_descriptor`). */
  datatype PageDescriptor = PageDescriptor(
    valid: bool, frame: int, dirty: bool, swapIndex: int, refTime: nat)

  /** The entry every page starts with. */
  const UNMAPPED: PageDescriptor := PageDescriptor(false, NO_FRAME, false, NO_SWAP, 0)

  /** A resident page that can be evicted without writing it back. */
  predicate CleanResident(e: PageDescriptor) {
    e.valid && !e.dirty
  }

  datatype State = State(
    pageTable: seq<PageDescriptor>,
    frames: seq<int>,
    memory: seq<byte>,
    swap: seq<byte>,
    clock: nat)

  /** How `load` and `store` end. `PageOutOfRange` and
      `UninitializedHeapAccess` are where the source goes on to index out of
      bounds; the model stops there instead. */
  datatype Status = Ok | OutOfBounds | PageOutOfRange | UninitializedHeapAccess

  // ---------------------------------------------------------------------
  // The invariant

  /** Page `p`'s entry agrees with the frame table: a resident page owns the
      frame it names, a non-resident page has no frame and is clean. */
  ghost predicate EntryOk(s: State, p: nat)
    requires p < |s.pageTable|
  {
    var e := s.pageTable[p];
    && e.swapIndex == NO_SWAP
    && e.refTime <= s.clock
    && if e.valid then 0 <= e.frame < |s.frames| && s.frames[e.frame] == p
       else e.frame == NO_FRAME && !e.dirty
  }

  /** Frame `f` is free, or it is held by a resident page that names it. */
  ghost predicate SlotOk(s: State, f: nat)
    requires f < |s.frames|
  {
    || s.frames[f] == FREE
    || (0 <= s.frames[f] < |s.pageTable|
        && s.pageTable[s.frames[f]].valid
        && s.pageTable[s.frames[f]].frame == f)
  }

  ghost predicate Inv(c: Config, s: State) {
    && c.WellFormed()
    && |s.pageTable| == c.numOfPages
    && |s.frames| == c.FrameCount()
    && |s.memory| == MEMORY_SIZE
    && |s.swap| == c.SwapSize()
    && (forall p: nat :: p < |s.pageTable| ==> EntryOk(s, p))
    && (forall f: nat :: f < |s.frames| ==> SlotOk(s, f))
  }

  /** The resident bytes of frame `f` are inside physical memory. */
  lemma FrameInMemory(c: Config, f: nat)
    requires c.WellFormed() && f < c.FrameCount()
    ensures f * c.pageSize + c.pageSize <= MEMORY_SIZE
  {
    Arith.PageEndsBefore(f, MEMORY_SIZE, c.pageSize);
  }

  // ---------------------------------------------------------------------
  // Construction

  /** The state right after the constructor: every page unmapped, every frame
      free, physical memory and the whole swap area zero. */
  function Initial(c: Config): (s: State)
    requires c.WellFormed()
    ensures Inv(c, s)
  {
    State(seq(c.numOfPages, _ => UNMAPPED), seq(c.FrameCount(), _ => FREE),
          seq(MEMORY_SIZE, _ => 0), seq(c.SwapSize(), _ => 0), 0)
  }

  // ---------------------------------------------------------------------
  // Address translation

  datatype Translation = InRange(page: nat, offset: nat) | OutOfRange(error: Status)

  /** The bounds check and page/offset split of `load` and `store`. The source
      checks only `0 <= address < MEMORY_SIZE`; the model adds the check that
      the page exists in the page table. */
  function Translate(c: Config, address: int): (r: Translation)
    requires c.WellFormed()
    ensures r.InRange? ==> 0 <= address < MEMORY_SIZE && r.page < c.numOfPages && r.offset < c.pageSize
    ensures r.OutOfRange? ==>
      (r.error == OutOfBounds <==> address < 0 || address >= MEMORY_SIZE) &&
      (r.error == OutOfBounds || r.error == PageOutOfRange)
  {
    if address < 0 || address >= MEMORY_SIZE then OutOfRange(OutOfBounds)
    else
      if address / c.pageSize >= c.numOfPages then OutOfRange(PageOutOfRange)
      else InRange(address / c.pageSize, address % c.pageSize)
  }

  // ---------------------------------------------------------------------
  // Fault-in: where a page's content comes from

  datatype Source = Executable | Swap | Zero

  /** The content source chosen by `load_page` from the page's index and its
      dirty flag: text pages from the executable; other dirty pages from swap;
      other clean pages from the executable when inside text+data, otherwise
      a zero page. */
  function ContentSource(c: Config, index: nat, dirty: bool): (src: Source)
    requires c.WellFormed()
    ensures src == Executable <==> index < c.TextPages() || (!dirty && index < c.TextDataPages())
    ensures src == Swap <==> index >= c.TextPages() && dirty
  {
    if index < c.TextPages() then Executable
    else if dirty then Swap
    else if index >= c.TextDataPages() then Zero
    else Executable
  }

  /** The heap/stack guard: a load-mode fault that would zero-fill a page
      beyond text+data+bss is refused. */
  predicate HeapGuardRejects(c: Config, index: nat, isLoad: bool, src: Source)
    requires c.WellFormed()
  {
    src == Zero && isLoad && index >= c.LoadedPages()
  }

  /** The page-sized buffer `load_page` reads for page `index` from `src`. */
  function SourcePage(c: Config, exe: seq<byte>, swap: seq<byte>, index: nat, src: Source): (buf: seq<byte>)
    requires c.WellFormed() && ImageFits(c, exe)
    requires index < c.numOfPages && |swap| == c.SwapSize()
    requires src == Executable ==> index < c.TextDataPages()
    ensures |buf| == c.pageSize
  {
    match src
    case Executable =>
      Arith.PageEndsBefore(index, c.textSize + c.dataSize, c.pageSize);
      exe[index * c.pageSize .. index * c.pageSize + c.pageSize]
    case Swap =>
      Arith.PageWithin(index, c.numOfPages, c.pageSize);
      swap[index * c.pageSize .. index * c.pageSize + c.pageSize]
    case Zero =>
      seq(c.pageSize, _ => 0)
  }

  // ---------------------------------------------------------------------
  // Frame choice

  /** The lowest-numbered free frame, or -1 (no frame found) when every frame is held. */
  function FirstFree(frames: seq<int>): (r: int)
    ensures -1 <= r < |frames|
    ensures r == -1 <==> forall f :: 0 <= f < |frames| ==> frames[f] != FREE
    ensures r >= 0 ==> frames[r] == FREE && forall f :: 0 <= f < r ==> frames[f] != FREE
  {
    if |frames| == 0 then -1
    else if frames[0] == FREE then 0
    else
      var r := FirstFree(frames[1..]);
      if r == -1 then -1 else r + 1
  }

  /** The lowest-numbered resident clean page, or -1 when there is none. */
  function FirstClean(pt: seq<PageDescriptor>): (r: int)
    ensures -1 <= r < |pt|
    ensures r == -1 <==> forall i :: 0 <= i < |pt| ==> !CleanResident(pt[i])
    ensures r >= 0 ==> CleanResident(pt[r]) && forall i :: 0 <= i < r ==> !CleanResident(pt[i])
  {
    if |pt| == 0 then -1
    else if CleanResident(pt[0]) then 0
    else
      var r := FirstClean(pt[1..]);
      if r == -1 then -1 else r + 1
  }

  /** The resident page with the smallest reference time, the lowest-numbered
      one among equals, or -1 when no page is resident. It is defined by the
      same scan in index order with a strict comparison as `load_page`. */
  function LruVictim(pt: seq<PageDescriptor>): (r: int)
    ensures -1 <= r < |pt|
    ensures r == -1 <==> forall i :: 0 <= i < |pt| ==> !pt[i].valid
    ensures r >= 0 ==> pt[r].valid
    ensures r >= 0 ==> forall i :: 0 <= i < |pt| && pt[i].valid ==> pt[r].refTime <= pt[i].refTime
    ensures r >= 0 ==> forall i :: 0 <= i < r && pt[i].valid ==> pt[r].refTime < pt[i].refTime
  {
    if |pt| == 0 then -1
    else
      var last := |pt| - 1;
      var r := LruVictim(pt[..last]);
      assert forall i :: 0 <= i < last ==> pt[..last][i] == pt[i];
      if pt[last].valid && (r == -1 || pt[r].refTime > pt[last].refTime) then last else r
  }

  /** The page evicted when no frame is free: the first clean resident page,
      otherwise the least recently used resident page. */
  function ChooseVictim(pt: seq<PageDescriptor>): (v: int)
    ensures -1 <= v < |pt|
    ensures v == -1 <==> forall i :: 0 <= i < |pt| ==> !pt[i].valid
    ensures v >= 0 ==> pt[v].valid
    ensures FirstClean(pt) >= 0 ==> v == FirstClean(pt)
    ensures FirstClean(pt) == -1 ==> v == LruVictim(pt)
  {
    var clean := FirstClean(pt);
    if clean != -1 then clean else LruVictim(pt)
  }

  /** When no frame is free, some page is resident, so a victim exists. */
  lemma EvictionFindsVictim(c: Config, s: State)
    requires Inv(c, s) && FirstFree(s.frames) == -1
    ensures ChooseVictim(s.pageTable) >= 0
  {
    assert |s.frames| > 0 by {
      assert MEMORY_SIZE / c.pageSize >= 1;
    }
    assert SlotOk(s, 0);
    var p := s.frames[0];
    assert s.pageTable[p].valid;
  }

  // ---------------------------------------------------------------------
  // Page-out and page-in

  /** `buf` copied over `s` starting at byte `base`. */
  function Overwrite(s: seq<byte>, base: nat, buf: seq<byte>): (r: seq<byte>)
    requires base + |buf| <= |s|
    ensures |r| == |s|
    ensures r[base .. base + |buf|] == buf
    ensures forall i :: 0 <= i < |s| && !(base <= i < base + |buf|) ==> r[i] == s[i]
  {
    s[..base] + buf + s[base + |buf|..]
  }

  /** `unload_page(v)`: write a dirty victim back into swap slot `v`, then
      unmap it and free its frame (the frame it held, see `SimMem.UnloadPage`). */
  function UnloadPage(c: Config, s: State, v: nat): (r: State)
    requires Inv(c, s) && v < |s.pageTable| && s.pageTable[v].valid
    ensures Inv(c, r)
    ensures 0 <= s.pageTable[v].frame < |r.frames| && r.frames[s.pageTable[v].frame] == FREE
    ensures forall p :: 0 <= p < |s.pageTable| && p != v ==> r.pageTable[p] == s.pageTable[p]
    ensures r.memory == s.memory && r.clock == s.clock
  {
    var w := WriteBack(c, s, v);
    SwapContentIsFree(c, s, w);
    Unmap(c, s.(swap := w), v)
  }

  /** The invariant does not depend on what the swap area holds. */
  lemma SwapContentIsFree(c: Config, s: State, swap: seq<byte>)
    requires Inv(c, s) && |swap| == |s.swap|
    ensures Inv(c, s.(swap := swap))
  {
    var r := s.(swap := swap);
    forall p: nat | p < |r.pageTable| ensures EntryOk(r, p) {
      assert EntryOk(s, p);
    }
    forall f: nat | f < |r.frames| ensures SlotOk(r, f) {
      assert SlotOk(s, f);
    }
  }

  /** The swap area after `unload_page(v)`: with page `v`'s frame copied into
      swap slot `v` when the page is dirty, unchanged when it is clean. */
  function WriteBack(c: Config, s: State, v: nat): (swap: seq<byte>)
    requires Inv(c, s) && v < |s.pageTable| && s.pageTable[v].valid
    ensures |swap| == |s.swap|
  {
    var e := s.pageTable[v];
    assert EntryOk(s, v);
    var base := e.frame * c.pageSize;
    FrameInMemory(c, e.frame);
    Arith.PageWithin(v, c.numOfPages, c.pageSize);
    if e.dirty then Overwrite(s.swap, v * c.pageSize, s.memory[base .. base + c.pageSize])
    else s.swap
  }

  /** Resident page `v` marked not present and its frame freed. */
  function Unmap(c: Config, s: State, v: nat): (r: State)
    requires Inv(c, s) && v < |s.pageTable| && s.pageTable[v].valid
    ensures Inv(c, r)
    ensures 0 <= s.pageTable[v].frame < |r.frames| && r.frames[s.pageTable[v].frame] == FREE
    ensures forall p :: 0 <= p < |s.pageTable| && p != v ==> r.pageTable[p] == s.pageTable[p]
    ensures r.memory == s.memory && r.swap == s.swap && r.clock == s.clock
  {
    var e := s.pageTable[v];
    assert EntryOk(s, v);
    var r := s.(pageTable := s.pageTable[v := e.(valid := false, frame := NO_FRAME, dirty := false, swapIndex := NO_SWAP)],
                frames := s.frames[e.frame := FREE]);
    assert forall p: nat :: p < |r.pageTable| ==> EntryOk(r, p) by {
      forall p: nat | p < |r.pageTable| ensures EntryOk(r, p) {
        assert EntryOk(s, p);
      }
    }
    assert forall f: nat :: f < |r.frames| ==> SlotOk(r, f) by {
      forall f: nat | f < |r.frames| ensures SlotOk(r, f) {
        assert SlotOk(s, f);
      }
    }
    r
  }

  /** Map page `index` into free frame `frame`, filled with `buf`. */
  function Install(c: Config, s: State, index: nat, frame: nat, buf: seq<byte>): (r: State)
    requires Inv(c, s) && index < |s.pageTable| && !s.pageTable[index].valid
    requires frame < |s.frames| && s.frames[frame] == FREE && |buf| == c.pageSize
    ensures Inv(c, r)
    ensures r.pageTable[index].valid && r.clock == s.clock
  {
    FrameInMemory(c, frame);
    var r := s.(memory := Overwrite(s.memory, frame * c.pageSize, buf),
                pageTable := s.pageTable[index := s.pageTable[index].(valid := true, frame := frame, dirty := false, swapIndex := NO_SWAP)],
                frames := s.frames[frame := index]);
    assert forall p: nat :: p < |r.pageTable| ==> EntryOk(r, p) by {
      forall p: nat | p < |r.pageTable| ensures EntryOk(r, p) {
        assert EntryOk(s, p);
      }
    }
    assert forall f: nat :: f < |r.frames| ==> SlotOk(r, f) by {
      forall f: nat | f < |r.frames| ensures SlotOk(r, f) {
        assert SlotOk(s, f);
        if f != frame && s.frames[f] != FREE {
          assert EntryOk(s, s.frames[f]);
        }
      }
    }
    r
  }

  /** The page evicted by a fault that finds no free frame. */
  function Victim(c: Config, s: State): (v: nat)
    requires Inv(c, s) && FirstFree(s.frames) == -1
    ensures v == ChooseVictim(s.pageTable) && v < |s.pageTable| && s.pageTable[v].valid
  {
    EvictionFindsVictim(c, s);
    ChooseVictim(s.pageTable)
  }

  /** The frame a fault is served from: the first free frame, or else the
      frame of the victim. */
  function TargetFrame(c: Config, s: State): (f: nat)
    requires Inv(c, s)
    ensures f < |s.frames|
  {
    if FirstFree(s.frames) != -1 then FirstFree(s.frames)
    else
      assert EntryOk(s, Victim(c, s));
      s.pageTable[Victim(c, s)].frame
  }

  /** The state in which `TargetFrame` is free: unchanged when some frame was
      free, otherwise the state after unloading the victim. */
  function MakeRoom(c: Config, s: State): (r: State)
    requires Inv(c, s)
    ensures Inv(c, r) && r.frames[TargetFrame(c, s)] == FREE
    ensures forall p :: 0 <= p < |s.pageTable| && !s.pageTable[p].valid ==> r.pageTable[p] == s.pageTable[p]
    ensures r.clock == s.clock
  {
    if FirstFree(s.frames) != -1 then s else UnloadPage(c, s, Victim(c, s))
  }

  /** `load_page(index, isLoad)`: None when the heap/stack guard refuses the
      fault; otherwise the page installed in `TargetFrame` (after `MakeRoom`
      evicted a victim if no frame was free), filled from its content source. */
  function LoadPage(c: Config, exe: seq<byte>, s: State, index: nat, isLoad: bool): (r: Option<State>)
    requires Inv(c, s) && ImageFits(c, exe) && index < |s.pageTable| && !s.pageTable[index].valid
    ensures r.None? <==> HeapGuardRejects(c, index, isLoad, ContentSource(c, index, s.pageTable[index].dirty))
    ensures r.Some? ==> Inv(c, r.value) && r.value.pageTable[index].valid && r.value.clock == s.clock
  {
    if HeapGuardRejects(c, index, isLoad, ContentSource(c, index, s.pageTable[index].dirty)) then None
    else Some(PageIn(c, exe, s, index))
  }

  lemma LoadPageAccepted(c: Config, exe: seq<byte>, s: State, index: nat, isLoad: bool)
    requires Inv(c, s) && ImageFits(c, exe) && index < |s.pageTable| && !s.pageTable[index].valid
    requires !HeapGuardRejects(c, index, isLoad, ContentSource(c, index, s.pageTable[index].dirty))
    ensures LoadPage(c, exe, s, index, isLoad) == Some(PageIn(c, exe, s, index))
  {
  }

  /** The fault served: page `index` installed in `TargetFrame`, after
      `MakeRoom`, filled from its content source. */
  function PageIn(c: Config, exe: seq<byte>, s: State, index: nat): (r: State)
    requires Inv(c, s) && ImageFits(c, exe) && index < |s.pageTable| && !s.pageTable[index].valid
    ensures Inv(c, r) && r.pageTable[index].valid && r.clock == s.clock
  {
    var s1 := MakeRoom(c, s);
    var src := ContentSource(c, index, s.pageTable[index].dirty);
    Install(c, s1, index, TargetFrame(c, s), SourcePage(c, exe, s1.swap, index, src))
  }

  datatype Option<T> = None | Some(value: T)

  // ---------------------------------------------------------------------
  // load and store

  datatype LoadResult = LoadResult(state: State, value: byte, status: Status)
  datatype StoreResult = StoreResult(state: State, status: Status)

  /** Physical address of byte `offset` of resident page `page`. */
  function PhysicalAddress(c: Config, s: State, page: nat, offset: nat): (a: nat)
    requires Inv(c, s) && page < |s.pageTable| && s.pageTable[page].valid && offset < c.pageSize
    ensures a < |s.memory|
  {
    assert EntryOk(s, page);
    var f := s.pageTable[page].frame;
    FrameInMemory(c, f);
    f * c.pageSize + offset
  }

  /** Make page `page` resident if it is not (a fault in the given mode). */
  function Fault(c: Config, exe: seq<byte>, s: State, page: nat, isLoad: bool): (r: Option<State>)
    requires Inv(c, s) && ImageFits(c, exe) && page < |s.pageTable|
    ensures r.None? <==>
      (!s.pageTable[page].valid &&
       HeapGuardRejects(c, page, isLoad, ContentSource(c, page, s.pageTable[page].dirty)))
    ensures r.Some? ==> Inv(c, r.value) && r.value.pageTable[page].valid && r.value.clock == s.clock
  {
    if s.pageTable[page].valid then Some(s) else LoadPage(c, exe, s, page, isLoad)
  }

  /** Stamp page `page` with the next clock value. */
  function Touch(c: Config, s: State, page: nat): (r: State)
    requires Inv(c, s) && page < |s.pageTable|
    ensures Inv(c, r)
  {
    var clock := s.clock + 1;
    var r := s.(pageTable := s.pageTable[page := s.pageTable[page].(refTime := clock)], clock := clock);
    assert forall p: nat :: p < |r.pageTable| ==> EntryOk(r, p) by {
      forall p: nat | p < |r.pageTable| ensures EntryOk(r, p) {
        assert EntryOk(s, p);
      }
    }
    assert forall f: nat :: f < |r.frames| ==> SlotOk(r, f) by {
      forall f: nat | f < |r.frames| ensures SlotOk(r, f) {
        assert SlotOk(s, f);
      }
    }
    r
  }

  /** `load(address)`. */
  function Load(c: Config, exe: seq<byte>, s: State, address: int): (r: LoadResult)
    requires Inv(c, s) && ImageFits(c, exe)
    ensures Inv(c, r.state)
  {
    match Translate(c, address)
    case OutOfRange(e) => LoadResult(s, 0, e)
    case InRange(page, offset) => LoadAt(c, exe, s, page, offset)
  }

  lemma LoadOutOfRange(c: Config, exe: seq<byte>, s: State, address: int)
    requires Inv(c, s) && ImageFits(c, exe) && Translate(c, address).OutOfRange?
    ensures Load(c, exe, s, address) == LoadResult(s, 0, Translate(c, address).error)
  {
  }

  lemma LoadInRange(c: Config, exe: seq<byte>, s: State, address: int, page: nat, offset: nat)
    requires Inv(c, s) && ImageFits(c, exe) && Translate(c, address) == InRange(page, offset)
    ensures Load(c, exe, s, address) == LoadAt(c, exe, s, page, offset)
  {
  }

  /** `load` of byte `offset` of page `page`, once the address is in range:
      fault the page in, then read the byte and stamp the page. */
  function LoadAt(c: Config, exe: seq<byte>, s: State, page: nat, offset: nat): (r: LoadResult)
    requires Inv(c, s) && ImageFits(c, exe) && page < |s.pageTable| && offset < c.pageSize
    ensures Inv(c, r.state)
  {
    match Fault(c, exe, s, page, true)
    case None => LoadResult(s, 0, UninitializedHeapAccess)
    case Some(s1) =>
      LoadResult(Touch(c, s1, page), s1.memory[PhysicalAddress(c, s1, page, offset)], Ok)
  }

  /** Write `value` at byte `offset` of resident page `page` and mark the
      page dirty. */
  function WriteByte(c: Config, s: State, page: nat, offset: nat, value: byte): (r: State)
    requires Inv(c, s) && page < |s.pageTable| && s.pageTable[page].valid && offset < c.pageSize
    ensures Inv(c, r)
  {
    var a := PhysicalAddress(c, s, page, offset);
    var r := s.(memory := s.memory[a := value],
                pageTable := s.pageTable[page := s.pageTable[page].(dirty := true)]);
    assert forall p: nat :: p < |r.pageTable| ==> EntryOk(r, p) by {
      forall p: nat | p < |r.pageTable| ensures EntryOk(r, p) {
        assert EntryOk(s, p);
      }
    }
    assert forall f: nat :: f < |r.frames| ==> SlotOk(r, f) by {
      forall f: nat | f < |r.frames| ensures SlotOk(r, f) {
        assert SlotOk(s, f);
      }
    }
    r
  }

  /** `store(address, value)`. */
  function Store(c: Config, exe: seq<byte>, s: State, address: int, value: byte): (r: StoreResult)
    requires Inv(c, s) && ImageFits(c, exe)
    ensures Inv(c, r.state)
  {
    match Translate(c, address)
    case OutOfRange(e) => StoreResult(s, e)
    case InRange(page, offset) => StoreResult(StoreAt(c, exe, s, page, offset, value), Ok)
  }

  lemma StoreOutOfRange(c: Config, exe: seq<byte>, s: State, address: int, value: byte)
    requires Inv(c, s) && ImageFits(c, exe) && Translate(c, address).OutOfRange?
    ensures Store(c, exe, s, address, value) == StoreResult(s, Translate(c, address).error)
  {
  }

  lemma StoreInRange(c: Config, exe: seq<byte>, s: State, address: int, value: byte, page: nat, offset: nat)
    requires Inv(c, s) && ImageFits(c, exe) && Translate(c, address) == InRange(page, offset)
    ensures Store(c, exe, s, address, value) == StoreResult(StoreAt(c, exe, s, page, offset, value), Ok)
  {
  }

  /** `store` of `value` at byte `offset` of page `page`, once the address is
      in range: fault the page in (a store-mode fault is never refused), then
      write the byte, mark the page dirty and stamp it. */
  function StoreAt(c: Config, exe: seq<byte>, s: State, page: nat, offset: nat, value: byte): (r: State)
    requires Inv(c, s) && ImageFits(c, exe) && page < |s.pageTable| && offset < c.pageSize
    ensures Inv(c, r)
  {
    var s1 := Fault(c, exe, s, page, false).value;
    Touch(c, WriteByte(c, s1, page, offset, value), page)
  }
}
