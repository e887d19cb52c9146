/** The `sim_mem` class: the paging engine over arrays updated in place.

    The page table, the frame table, the physical memory and the swap area are
    arrays owned by the object; the executable image is an immutable byte
    sequence and `clock` is a counter that replaces the C library's `clock()`.
    Every method that changes the engine's state is proved to compute a
    `PagingSpec` function on the abstract state `Abs()` and to keep
    `Valid()`; the scans are proved equal to the `PagingSpec` functions that
    specify them, and the two copy loops to `Overwrite` on the one array
    they write. */
module SimMemory {
  import opened PagingSpec
  import Arith

  class SimMem {
    const cfg: Config
    /** Contents of the executable file. */
    const exe: seq<byte>
    const frameCount: nat
    /** Physical memory (the global `main_memory` of the source). */
    const memory: array<byte>
    /** Contents of the swap file. */
    const swap: array<byte>
    const pageTable: array<PageDescriptor>
    /** `framesStatus[f]` is FREE or the page held by frame `f`. */
    const framesStatus: array<int>
    /** The last reference time handed out. */
    var clock: nat

    ghost function Abs(): State
      reads this, pageTable, framesStatus, memory, swap
    {
      State(pageTable[..], framesStatus[..], memory[..], swap[..], clock)
    }

    /** The four arrays are distinct objects. */
    ghost predicate Separate() {
      && memory != swap
      && pageTable as object != memory && pageTable as object != swap
      && framesStatus as object != memory && framesStatus as object != swap
      && framesStatus as object != pageTable
    }

    ghost predicate Valid()
      reads this, pageTable, framesStatus, memory, swap
    {
      && Separate()
      && frameCount == framesStatus.Length
      && ImageFits(cfg, exe)
      && Inv(cfg, Abs())
    }

    /** The constructor's table setup: every page unmapped, every frame free,
        memory zero, and a swap area of `numOfPages * pageSize` zero bytes
        written one page-sized buffer at a time. */
    constructor (exe: seq<byte>, textSize: nat, dataSize: nat, bssSize: nat,
                 heapStackSize: nat, pageSize: nat, numOfPages: nat)
      requires 0 < pageSize <= MEMORY_SIZE
      requires |exe| >= textSize + dataSize
      ensures Valid()
      ensures cfg == Config(textSize, dataSize, bssSize, heapStackSize, pageSize, numOfPages)
      ensures this.exe == exe && frameCount == MEMORY_SIZE / pageSize
      ensures fresh(memory) && fresh(swap) && fresh(pageTable) && fresh(framesStatus)
      ensures Abs() == Initial(cfg)
    {
      var table := UnmappedTable(numOfPages);
      var area := ZeroSwap(numOfPages, pageSize);
      cfg := Config(textSize, dataSize, bssSize, heapStackSize, pageSize, numOfPages);
      this.exe := exe;
      pageTable := table;
      swap := area;
      memory := new byte[MEMORY_SIZE](_ => 0);
      frameCount := MEMORY_SIZE / pageSize;
      framesStatus := new int[MEMORY_SIZE / pageSize](_ => FREE);
      clock := 0;
      new;
      ghost var r := Initial(cfg);
      assert pageTable[..] == r.pageTable;
      assert forall f :: 0 <= f < frameCount ==> framesStatus[..][f] == r.frames[f];
      assert framesStatus[..] == r.frames;
      assert forall a :: 0 <= a < MEMORY_SIZE ==> memory[..][a] == r.memory[a];
      assert memory[..] == r.memory;
      assert swap[..] == r.swap;
    }

    /** The page-table initialisation loop of the constructor. */
    static method UnmappedTable(n: nat) returns (table: array<PageDescriptor>)
      ensures fresh(table) && table[..] == seq(n, _ => UNMAPPED)
    {
      table := new PageDescriptor[n];
      for i := 0 to n
        invariant forall p :: 0 <= p < i ==> table[p] == UNMAPPED
      {
        table[i] := UNMAPPED;
      }
      assert forall p :: 0 <= p < n ==> table[..][p] == UNMAPPED;
    }

    /** The swap-file initialisation loop of the constructor: `n` writes of a
        zero page of `ps` bytes. */
    static method ZeroSwap(n: nat, ps: nat) returns (area: array<byte>)
      ensures fresh(area) && area[..] == seq(n * ps, _ => 0)
    {
      area := new byte[n * ps];
      var zeroPage: seq<byte> := seq(ps, _ => 0);
      for i := 0 to n
        invariant forall a :: 0 <= a < i * ps ==> area[a] == 0
      {
        Arith.PageWithin(i, n, ps);
        assert (i + 1) * ps == i * ps + ps;
        forall j | 0 <= j < ps {
          area[i * ps + j] := zeroPage[j];
        }
      }
      assert forall a :: 0 <= a < n * ps ==> area[..][a] == 0;
    }

    /** `load(address)`: the byte at `address`, faulting the page in when it
        is not resident, and the page stamped as most recently used. */
    method Load(address: int) returns (value: byte, status: Status)
      requires Valid()
      modifies this, pageTable, framesStatus, memory, swap
      ensures Valid()
      ensures PagingSpec.Load(cfg, exe, old(Abs()), address) == LoadResult(Abs(), value, status)
    {
      ghost var s := Abs();
      if address < 0 || address >= MEMORY_SIZE {
        value, status := 0, OutOfBounds;
        LoadOutOfRange(cfg, exe, s, address);
      } else {
        var pageNum := address / cfg.pageSize;
        var offset := address % cfg.pageSize;
        // The source indexes the page table without this check.
        if pageNum >= cfg.numOfPages {
          value, status := 0, PageOutOfRange;
          LoadOutOfRange(cfg, exe, s, address);
        } else {
          assert Translate(cfg, address) == InRange(pageNum, offset);
          LoadInRange(cfg, exe, s, address, pageNum, offset);
          value, status := LoadAt(pageNum, offset);
        }
      }
    }

    /** The in-range part of `load`. */
    method LoadAt(pageNum: nat, offset: nat) returns (value: byte, status: Status)
      requires Valid() && pageNum < pageTable.Length && offset < cfg.pageSize
      modifies this, pageTable, framesStatus, memory, swap
      ensures Valid()
      ensures PagingSpec.LoadAt(cfg, exe, old(Abs()), pageNum, offset) == LoadResult(Abs(), value, status)
    {
      var ok := FaultIn(pageNum, true);
      if ok {
        value := ReadResident(pageNum, offset);
        status := Ok;
      } else {
        // The source goes on here with frame -1, a negative physical address.
        value, status := 0, UninitializedHeapAccess;
      }
    }

    /** The access part of `load` on a resident page: stamp the page with
        the next clock value and read the byte. */
    method ReadResident(pageNum: nat, offset: nat) returns (value: byte)
      requires Valid() && pageNum < pageTable.Length && pageTable[pageNum].valid && offset < cfg.pageSize
      modifies this, pageTable
      ensures Valid()
      ensures Abs() == Touch(cfg, old(Abs()), pageNum)
      ensures value == old(Abs()).memory[PhysicalAddress(cfg, old(Abs()), pageNum, offset)]
    {
      ghost var r := Touch(cfg, Abs(), pageNum);
      var frameNum := pageTable[pageNum].frame;
      var physAddr := frameNum * cfg.pageSize + offset;
      assert physAddr == PhysicalAddress(cfg, Abs(), pageNum, offset);
      clock := clock + 1;
      pageTable[pageNum] := pageTable[pageNum].(refTime := clock);
      value := memory[physAddr];
      assert pageTable[..] == r.pageTable;
      assert Abs() == r;
    }

    /** `store(address, value)`: write the byte, faulting the page in when it
        is not resident, and mark the page dirty and most recently used. */
    method Store(address: int, value: byte) returns (status: Status)
      requires Valid()
      modifies this, pageTable, framesStatus, memory, swap
      ensures Valid()
      ensures PagingSpec.Store(cfg, exe, old(Abs()), address, value) == StoreResult(Abs(), status)
    {
      ghost var s := Abs();
      if address < 0 || address >= MEMORY_SIZE {
        status := OutOfBounds;
        StoreOutOfRange(cfg, exe, s, address, value);
      } else {
        var pageNum := address / cfg.pageSize;
        var offset := address % cfg.pageSize;
        // The source indexes the page table without this check.
        if pageNum >= cfg.numOfPages {
          status := PageOutOfRange;
          StoreOutOfRange(cfg, exe, s, address, value);
        } else {
          assert Translate(cfg, address) == InRange(pageNum, offset);
          StoreInRange(cfg, exe, s, address, value, pageNum, offset);
          StoreAt(pageNum, offset, value);
          status := Ok;
        }
      }
    }

    /** The in-range part of `store`. */
    method StoreAt(pageNum: nat, offset: nat, value: byte)
      requires Valid() && pageNum < pageTable.Length && offset < cfg.pageSize
      modifies this, pageTable, framesStatus, memory, swap
      ensures Valid()
      ensures Abs() == PagingSpec.StoreAt(cfg, exe, old(Abs()), pageNum, offset, value)
    {
      var ok := FaultIn(pageNum, false);
      assert ok;
      WriteResident(pageNum, offset, value);
    }

    /** The fault-in step of `load` and `store`: call `load_page` when the
        page is not resident. */
    method FaultIn(pageNum: nat, isLoad: bool) returns (ok: bool)
      requires Valid() && pageNum < pageTable.Length
      modifies pageTable, framesStatus, memory, swap
      ensures Valid()
      ensures Fault(cfg, exe, old(Abs()), pageNum, isLoad) == if ok then Some(Abs()) else None
      ensures ok ==> pageTable[pageNum].valid
      ensures !ok ==> Abs() == old(Abs())
    {
      ok := true;
      if !pageTable[pageNum].valid {
        ok := LoadPage(pageNum, isLoad);
      }
    }

    /** The access part of `store` on a resident page: write the byte, mark
        the page dirty and stamp it with the next clock value. */
    method WriteResident(pageNum: nat, offset: nat, value: byte)
      requires Valid() && pageNum < pageTable.Length && pageTable[pageNum].valid && offset < cfg.pageSize
      modifies this, pageTable, memory
      ensures Valid()
      ensures Abs() == Touch(cfg, WriteByte(cfg, old(Abs()), pageNum, offset, value), pageNum)
    {
      ghost var s2 := WriteByte(cfg, Abs(), pageNum, offset, value);
      ghost var r := Touch(cfg, s2, pageNum);
      var frameNum := pageTable[pageNum].frame;
      var physAddr := frameNum * cfg.pageSize + offset;
      assert physAddr == PhysicalAddress(cfg, Abs(), pageNum, offset);
      memory[physAddr] := value;
      pageTable[pageNum] := pageTable[pageNum].(dirty := true);
      clock := clock + 1;
      pageTable[pageNum] := pageTable[pageNum].(refTime := clock);
      assert memory[..] == r.memory;
      assert pageTable[..] == r.pageTable;
      assert Abs() == r;
    }

    /** `load_page(index, is_load)`, the fault handler. It returns false,
        having changed nothing, when the heap/stack guard refuses the fault. */
    method LoadPage(index: nat, isLoad: bool) returns (ok: bool)
      requires Valid() && index < pageTable.Length && !pageTable[index].valid
      modifies pageTable, framesStatus, memory, swap
      ensures Valid()
      ensures PagingSpec.LoadPage(cfg, exe, old(Abs()), index, isLoad) == if ok then Some(Abs()) else None
      ensures !ok ==> Abs() == old(Abs())
    {
      ghost var s := Abs();
      // Text pages are read-only; data, bss and heap/stack pages read-write.
      var readOnly := index < cfg.textSize / cfg.pageSize;
      var copyFromExe, initNewPage := false, false;
      if readOnly {
        copyFromExe := true;
      } else if !pageTable[index].dirty {
        if index >= (cfg.textSize + cfg.dataSize) / cfg.pageSize {
          initNewPage := true;
        } else {
          copyFromExe := true;
        }
      }
      ghost var src := ContentSource(cfg, index, pageTable[index].dirty);
      assert initNewPage <==> src == Zero;
      assert copyFromExe <==> src == Executable;

      if initNewPage && isLoad && index >= (cfg.textSize + cfg.dataSize + cfg.bssSize) / cfg.pageSize {
        return false;
      }
      LoadPageAccepted(cfg, exe, s, index, isLoad);
      PageInFrame(index, copyFromExe, initNewPage, src);
      ok := true;
    }

    /** The part of `load_page` after the guard: take a frame, read the page's
        content from its source, and install it. */
    method PageInFrame(index: nat, copyFromExe: bool, initNewPage: bool, ghost src: Source)
      requires Valid() && index < pageTable.Length && !pageTable[index].valid
      requires src == ContentSource(cfg, index, pageTable[index].dirty)
      requires (initNewPage <==> src == Zero) && (copyFromExe <==> src == Executable)
      modifies pageTable, framesStatus, memory, swap
      ensures Valid()
      ensures Abs() == PageIn(cfg, exe, old(Abs()), index)
    {
      ghost var s := Abs();
      var freeIndex := AcquireFrame();
      assert Abs().pageTable[index] == s.pageTable[index];
      var buffer := ReadSource(index, copyFromExe, initNewPage, src);
      InstallPage(index, freeIndex, buffer);
    }

    /** The page-sized buffer `load_page` reads: a zero page, the page's bytes
        of the executable, or its swap slot. */
    method ReadSource(index: nat, copyFromExe: bool, initNewPage: bool, ghost src: Source)
        returns (buffer: seq<byte>)
      requires Valid() && index < pageTable.Length
      requires src == Executable ==> index < cfg.TextDataPages()
      requires (initNewPage <==> src == Zero) && (copyFromExe <==> src == Executable)
      ensures buffer == SourcePage(cfg, exe, swap[..], index, src)
    {
      if initNewPage {
        buffer := seq(cfg.pageSize, _ => 0);
      } else if copyFromExe {
        Arith.PageEndsBefore(index, cfg.textSize + cfg.dataSize, cfg.pageSize);
        buffer := exe[index * cfg.pageSize .. index * cfg.pageSize + cfg.pageSize];
      } else {
        Arith.PageWithin(index, cfg.numOfPages, cfg.pageSize);
        buffer := swap[index * cfg.pageSize .. index * cfg.pageSize + cfg.pageSize];
      }
    }

    /** The frame acquisition of `load_page`: the first free frame, or else the
        frame of the evicted victim. */
    method AcquireFrame() returns (freeIndex: nat)
      requires Valid()
      modifies pageTable, framesStatus, swap
      ensures Valid()
      ensures freeIndex == TargetFrame(cfg, old(Abs())) && Abs() == MakeRoom(cfg, old(Abs()))
    {
      ghost var s := Abs();
      var free := FindFreeFrame();
      if free == -1 {
        EvictionFindsVictim(cfg, s);
        var victim := FindVictim();
        assert EntryOk(s, victim);
        freeIndex := pageTable[victim].frame;
        UnloadPage(victim);
      } else {
        freeIndex := free;
      }
    }

    /** The end of `load_page`: copy the buffer into frame `frame` and record
        the mapping in both tables. */
    method InstallPage(index: nat, frame: nat, buffer: seq<byte>)
      requires Valid() && index < pageTable.Length && !pageTable[index].valid
      requires frame < framesStatus.Length && framesStatus[frame] == FREE && |buffer| == cfg.pageSize
      modifies pageTable, framesStatus, memory
      ensures Valid()
      ensures Abs() == Install(cfg, old(Abs()), index, frame, buffer)
    {
      ghost var r := Install(cfg, Abs(), index, frame, buffer);
      FrameInMemory(cfg, frame);
      CopyToMemory(frame * cfg.pageSize, buffer);
      pageTable[index] := pageTable[index].(valid := true, frame := frame, dirty := false, swapIndex := NO_SWAP);
      framesStatus[frame] := index;
      assert memory[..] == r.memory;
      assert pageTable[..] == r.pageTable;
      assert framesStatus[..] == r.frames;
      assert Abs() == r;
    }

    /** `unload_page(index)`: write a dirty page back into its swap slot, then
        unmap it and free its frame.
        The source frees `frames_status[index]`, a slot picked by page number;
        the model frees the frame the page held, as the source's comment says. */
    method UnloadPage(index: nat)
      requires Valid() && index < pageTable.Length && pageTable[index].valid
      modifies pageTable, framesStatus, swap
      ensures Valid()
      ensures Abs() == PagingSpec.UnloadPage(cfg, old(Abs()), index)
    {
      ghost var s := Abs();
      ghost var w := WriteBack(cfg, s, index);
      assert EntryOk(s, index);
      if pageTable[index].dirty {
        var frame := pageTable[index].frame;
        FrameInMemory(cfg, frame);
        Arith.PageWithin(index, cfg.numOfPages, cfg.pageSize);
        WriteSwapPage(index * cfg.pageSize, frame * cfg.pageSize);
      }
      assert swap[..] == w;
      assert Abs() == s.(swap := w);
      SwapContentIsFree(cfg, s, w);
      UnmapPage(index);
    }

    /** The end of `unload_page`: mark the page not present and free the
        frame it held. */
    method UnmapPage(index: nat)
      requires Valid() && index < pageTable.Length && pageTable[index].valid
      modifies pageTable, framesStatus
      ensures Valid()
      ensures Abs() == Unmap(cfg, old(Abs()), index)
    {
      ghost var r := Unmap(cfg, Abs(), index);
      assert EntryOk(Abs(), index);
      var frame := pageTable[index].frame;
      pageTable[index] := pageTable[index].(valid := false, frame := NO_FRAME, dirty := false, swapIndex := NO_SWAP);
      framesStatus[frame] := FREE;
      assert pageTable[..] == r.pageTable;
      assert framesStatus[..] == r.frames;
      assert Abs() == r;
    }

    /** The write of one page of physical memory, from byte `from`, into the
        swap area at byte `to`. */
    method WriteSwapPage(to: nat, from: nat)
      requires Separate()
      requires 0 < cfg.pageSize && to + cfg.pageSize <= swap.Length && from + cfg.pageSize <= memory.Length
      modifies swap
      ensures swap[..] == Overwrite(old(swap[..]), to, memory[from .. from + cfg.pageSize])
    {
      forall j | 0 <= j < cfg.pageSize {
        swap[to + j] := memory[from + j];
      }
    }

    /** The copy (`memcpy`) of a page-sized buffer into physical memory at
        byte `to`. */
    method CopyToMemory(to: nat, buffer: seq<byte>)
      requires to + |buffer| <= memory.Length
      modifies memory
      ensures memory[..] == Overwrite(old(memory[..]), to, buffer)
    {
      forall j | 0 <= j < |buffer| {
        memory[to + j] := buffer[j];
      }
    }

    /** The free-frame scan of `load_page`. */
    method FindFreeFrame() returns (freeIndex: int)
      requires Valid()
      ensures freeIndex == FirstFree(framesStatus[..])
    {
      freeIndex := -1;
      var i := 0;
      while i < frameCount
        invariant 0 <= i <= frameCount
        invariant forall f :: 0 <= f < i ==> framesStatus[f] != FREE
      {
        if framesStatus[i] == FREE {
          freeIndex := i;
          break;
        }
        i := i + 1;
      }
    }

    /** The victim scans of `load_page`: the first clean resident page, and
        only if there is none, the resident page with the smallest reference
        time (a strict comparison, so the first of equals). The source starts
        the second scan from `lru = LONG_MAX`; the model has no candidate
        until the first resident page. */
    method FindVictim() returns (victimPage: int)
      requires Valid()
      ensures victimPage == ChooseVictim(pageTable[..])
    {
      victimPage := -1;
      var i := 0;
      while i < cfg.numOfPages
        invariant 0 <= i <= cfg.numOfPages && victimPage == -1
        invariant forall k :: 0 <= k < i ==> !CleanResident(pageTable[k])
      {
        if pageTable[i].valid && !pageTable[i].dirty {
          victimPage := i;
          break;
        }
        i := i + 1;
      }
      if victimPage == -1 {
        var lru: nat := 0;
        i := 0;
        while i < cfg.numOfPages
          invariant 0 <= i <= cfg.numOfPages
          invariant victimPage == LruVictim(pageTable[..i])
          invariant victimPage >= 0 ==> lru == pageTable[victimPage].refTime
        {
          assert pageTable[..i + 1][..i] == pageTable[..i];
          if pageTable[i].valid && (victimPage == -1 || lru > pageTable[i].refTime) {
            victimPage := i;
            lru := pageTable[i].refTime;
          }
          i := i + 1;
        }
        assert pageTable[..cfg.numOfPages] == pageTable[..];
      }
    }
  }
}
