/** The page directory and its tables in physical memory, written in place. */
module VirtualMemory {
  import opened Bitwise
  import opened PhysicalMemory
  import opened PageTables
  import opened PagingRuns
  import opened InitialTables

  class Mmu {
    const pmm: FrameAllocator
    /** Physical memory, frame by frame. */
    const ram: array<Frame>
    /** Physical address of the directory, 0 before one is set. */
    var directory: uint32

    ghost predicate Hardware()
      reads pmm`maxBlocks
    {
      pmm.Valid() && ram.Length == PAGES
    }

    function Tables(): View
      requires Hardware()
      reads this, pmm`maxBlocks, pmm.memoryMap, ram
    {
      Read(ram[..], directory / 4096, pmm.Used())
    }

    ghost predicate Valid()
      reads this, pmm`maxBlocks, pmm.memoryMap, ram
    {
      Hardware() && directory % 4096 == 0 && Separate(Tables(), directory / 4096)
    }

    constructor (pmm: FrameAllocator)
      requires pmm.Valid()
      ensures this.pmm == pmm && fresh(ram) && directory == 0 && Hardware()
    {
      this.pmm := pmm;
      ram := new Frame[PAGES];
      directory := 0;
    }

    /** Zeroes one whole frame. */
    method ClearFrame(frame: nat)
      requires Hardware() && frame < PAGES
      modifies ram
      ensures ram[..] == old(ram[..])[frame := ZeroFrame()]
    {
      for k := 0 to ENTRIES
        invariant forall j | 0 <= j < k :: ram[frame][j] == 0
        invariant ram[..] == old(ram[..])[frame := ram[frame]]
      {
        ram[frame] := ram[frame][k := 0];
      }
      assert ram[frame] == ZeroFrame();
    }

    method CreatePageTable(virtAddress: uint32, flags: uint32) returns (ok: bool)
      requires Valid() && flags < 4096
      modifies ram, pmm`usedBlocks, pmm.memoryMap
      ensures Valid()
      ensures CreateStep(old(Tables()), Tables(), PdIndex(virtAddress), flags, ok, pmm.maxBlocks)
      ensures Drift(pmm.usedBlocks, pmm.Used()) == old(Drift(pmm.usedBlocks, pmm.Used()))
      decreases EmptySlots(Tables().pd), 0
    {
      hide Or, Entry, GetFrame, PdIndex, Separate, CreateStep, MapStep, AddsTable, FreeRun, LeafOf, Blocks;
      hide FirstFit, Drift;
      ghost var v, mem, counter := Tables(), ram[..], pmm.usedBlocks;
      var d, index := directory / 4096, PdIndex(virtAddress);
      if ram[d][index] == 0 {
        FrameZeroTaken(v, d, pmm.maxBlocks);
        var block := pmm.AllocateBlocks(1);
        if block == 0 {
          NothingCreated(v, d, index, flags, pmm.maxBlocks);
          return false;
        }
        ghost var frame := block / 4096;
        FrameTaken(v, d, frame, pmm.maxBlocks);
        FitKeepsDrift(v.used, pmm.maxBlocks, frame, 1, counter);
        ram[d] := ram[d][index := Entry(block, flags)];
        ClearFrame(GetFrame(ram[d][index]) / 4096);
        ghost var m := Tables();
        WriteTable(mem, d, v.used, index, frame, flags, ram[..]);
        SlotFilled(v.pd, index, m.pd[index]);
        var mapped := MapAddress(block, block, flags);
        CreateThenMap(v, m, Tables(), index, frame, flags, mapped, pmm.maxBlocks);
      } else {
        NothingToCreate(v, d, index, flags, pmm.maxBlocks);
      }
      return true;
    }

    method MapAddress(physAddress: uint32, virtAddress: uint32, flags: uint32) returns (ok: bool)
      requires Valid() && flags < 4096
      modifies ram, pmm`usedBlocks, pmm.memoryMap
      ensures Valid()
      ensures MapStep(old(Tables()), Tables(), virtAddress / 4096, Entry(physAddress, flags), flags, ok, pmm.maxBlocks)
      ensures Drift(pmm.usedBlocks, pmm.Used()) == old(Drift(pmm.usedBlocks, pmm.Used()))
      decreases EmptySlots(Tables().pd), 1
    {
      hide Or, Entry, GetFrame, PdIndex, PtIndex, ShiftedPtIndex, Separate, CreateStep, MapStep, LeafOf, Drift;
      ghost var v, page, entry := Tables(), virtAddress / 4096, Entry(physAddress, flags);
      var d, index := directory / 4096, PdIndex(virtAddress);
      if ram[d][index] == 0 {
        var created := CreatePageTable(virtAddress, flags);
        if !created {
          CreateFails(v, Tables(), page, entry, flags, pmm.maxBlocks);
          return false;
        }
        SlotCreated(v, Tables(), index, flags, pmm.maxBlocks);
      } else {
        NothingToCreate(v, d, index, flags, pmm.maxBlocks);
      }
      ghost var m, mem := Tables(), ram[..];
      var table := GetFrame(ram[d][index]) / 4096;
      ram[table] := ram[table][ShiftedPtIndex(virtAddress) := Entry(physAddress, flags)];
      WriteLeaf(mem, d, m.used, page, entry, ram[..]);
      CreateThenWrite(v, m, Tables(), page, entry, flags, pmm.maxBlocks);
      return true;
    }

    /** The word that `get_page` points at, as frame and index. It is a word of frame 0 when there is no table. */
    method GetPage(address: uint32) returns (frame: nat, index: nat)
      requires Hardware()
      ensures frame == ram[directory / 4096][PdIndex(address)] / 4096 && index == PtIndex(address)
      ensures ram[directory / 4096][PdIndex(address)] != 0 ==> ram[frame][index] == Tables().leaf[address / 4096]
      ensures ram[directory / 4096][PdIndex(address)] == 0 ==> frame == 0 && Tables().leaf[address / 4096] == 0
    {
      var entry := ram[directory / 4096][PdIndex(address)];
      frame, index := GetFrame(entry) / 4096, PtIndex(address);
    }

    /** Clears the frame and the present bit of the entry. Without a directory the word that is written is wherever
        frame 0 points, and nothing is promised. */
    method UnmapPage(virtAddress: uint32)
      requires Hardware()
      modifies ram
      ensures old(Valid()) ==> Valid() && UnmapStep(old(Tables()), Tables(), virtAddress / 4096)
    {
      hide SetFrame, ClearAttribute, Entry, PdIndex, PtIndex, LeafOf, Separate;
      ghost var v, mem, page := Tables(), ram[..], virtAddress / 4096;
      var frame, index := GetPage(virtAddress);
      var entry := ClearAttribute(SetFrame(ram[frame][index], 0), PRESENT);
      UnmappedEntry(ram[frame][index]);
      if v.pd[page / 1024] != 0 {
        LeafShown(mem, directory / 4096, v.used, page);
      }
      ram[frame] := ram[frame][index := entry];
      if old(Valid()) {
        if v.pd[page / 1024] == 0 {
          WriteFrameZero(mem, directory / 4096, v.used, ram[0]);
        } else {
          WriteLeaf(mem, directory / 4096, v.used, page, entry, ram[..]);
        }
      }
    }

    method AllocateBlocks(n: uint32) returns (address: uint32)
      requires Valid()
      modifies pmm`usedBlocks, pmm.memoryMap
      ensures Valid() && AllocStep(old(Tables()), Tables(), n, pmm.maxBlocks)
      ensures address % 4096 == 0 && (address == 0 ==> Tables() == old(Tables()))
      ensures address != 0 <==> n > 0 && old(HasFreeRun(pmm.Used(), pmm.maxBlocks, n))
      ensures address != 0 ==>
                && n > 0 && FirstFit(old(pmm.Used()), pmm.maxBlocks, address / 4096, n)
                && address / 4096 + n <= pmm.maxBlocks && Blocks(address / 4096, n) !! old(pmm.Used())
                && Tables() == old(Tables()).(used := old(pmm.Used()) + Blocks(address / 4096, n))
      ensures Drift(pmm.usedBlocks, pmm.Used()) == old(Drift(pmm.usedBlocks, pmm.Used()))
    {
      hide Drift;
      ghost var v, counter := Tables(), pmm.usedBlocks;
      address := pmm.AllocateBlocks(n);
      if address != 0 {
        FitKeepsDrift(v.used, pmm.maxBlocks, address / 4096, n, counter);
      }
    }

    /** Runs a list of kernel operations; the trace is a run of the transition system. */
    method Execute(ops: seq<Op>) returns (ghost trace: seq<View>)
      requires Valid() && forall op | op in ops && op.MapOp? :: op.flags < 4096
      modifies ram, pmm`usedBlocks, pmm.memoryMap
      ensures Valid() && Run(trace, ops, pmm.maxBlocks)
      ensures trace[0] == old(Tables()) && trace[|ops|] == Tables()
      ensures Drift(pmm.usedBlocks, pmm.Used()) == old(Drift(pmm.usedBlocks, pmm.Used()))
    {
      hide Separate, MapStep, UnmapStep, AllocStep, Entry, Drift;
      trace := [Tables()];
      for i := 0 to |ops|
        invariant Valid() && |trace| == i + 1
        invariant trace[0] == old(Tables()) && trace[i] == Tables()
        invariant Drift(pmm.usedBlocks, pmm.Used()) == old(Drift(pmm.usedBlocks, pmm.Used()))
        invariant forall k | 0 <= k < i :: Step(trace[k], ops[k], trace[k + 1], pmm.maxBlocks)
      {
        assert ops[i] in ops;
        match ops[i] {
          case MapOp(phys, virt, flags) =>
            var ok := MapAddress(phys, virt, flags);
            assert MapStep(trace[i], Tables(), virt / 4096, Entry(phys, flags), flags, ok, pmm.maxBlocks);
          case UnmapOp(virt) =>
            UnmapPage(virt);
          case AllocOp(n) =>
            var address := AllocateBlocks(n);
        }
        assert Step(trace[i], ops[i], Tables(), pmm.maxBlocks);
        trace := trace + [Tables()];
      }
    }

    /** Takes two frames and fills them as the boot tables: table for the kernel, table2 for the low 4 MB. */
    method BootTables() returns (table: uint32, table2: uint32)
      requires Hardware() && 0 in pmm.Used()
      modifies ram, pmm`usedBlocks, pmm.memoryMap
      ensures Hardware() && old(pmm.Used()) <= pmm.Used()
      ensures Drift(pmm.usedBlocks, pmm.Used()) == old(Drift(pmm.usedBlocks, pmm.Used()))
      ensures old(HasFreeRun(pmm.Used(), pmm.maxBlocks, 5)) ==>
                table != 0 && table2 != 0 && HasFreeRun(pmm.Used(), pmm.maxBlocks, 3)
      ensures table % 4096 == table2 % 4096 == 0
      ensures table != 0 && table2 != 0 ==>
                && table != table2 && {table / 4096, table2 / 4096} !! old(pmm.Used())
                && FirstFit(old(pmm.Used()), pmm.maxBlocks, table / 4096, 1)
                && FirstFit(old(pmm.Used()) + {table / 4096}, pmm.maxBlocks, table2 / 4096, 1)
                && pmm.Used() == old(pmm.Used()) + {table / 4096, table2 / 4096}
                && (forall i | 0 <= i < ENTRIES :: ram[table2 / 4096][i] == i * 4096 + 3)
                && (forall i | 0 <= i < ENTRIES :: ram[table / 4096][i] == 0x10_0000 + i * 4096 + 3)
    {
      hide FirstFit, FreeRun, HasFreeRun, Drift;
      ghost var u0, c0, limit := pmm.Used(), pmm.usedBlocks, pmm.maxBlocks;
      NotAtZero(u0, limit, 1);
      BootRoom(u0, limit);
      table := pmm.AllocateBlocks(1);
      if table == 0 {
        return table, 0;
      }
      ghost var u1, c1 := pmm.Used(), pmm.usedBlocks;
      Taken(u0, limit, table / 4096, 1, c0);
      NotAtZero(u1, limit, 1);
      table2 := pmm.AllocateBlocks(1);
      if table2 == 0 {
        return;
      }
      Taken(u1, limit, table2 / 4096, 1, c1);
      var high, low := table / 4096, table2 / 4096;
      ClearFrame(high);
      ClearFrame(low);
      FillTable(low, 0, 0);
      FillTable(high, 0x10_0000, 0xC000_0000);
    }

    /** Sets up the two boot tables and the directory, or returns early when a frame is missing. */
    method InitializeVmm()
      requires Hardware() && 0 in pmm.Used() && directory == 0
      modifies this`directory, ram, pmm`usedBlocks, pmm.memoryMap
      ensures Hardware() && old(pmm.Used()) <= pmm.Used()
      ensures Drift(pmm.usedBlocks, pmm.Used()) == old(Drift(pmm.usedBlocks, pmm.Used()))
      ensures old(HasFreeRun(pmm.Used(), pmm.maxBlocks, 5)) ==> directory != 0
      ensures directory != 0 ==> Valid() && AllPresent(Tables())
      ensures directory != 0 ==> forall p: nat | p < 0x400 :: Translate(Tables(), p) == Frame(p)
      ensures directory != 0 ==> forall p: nat | 0xC_0000 <= p < 0xC_0400 ::
                Translate(Tables(), p) == Frame(p - 0xC_0000 + 0x100)
      ensures directory != 0 ==> forall p: nat | 0x400 <= p < 0xC_0000 || 0xC_0400 <= p < 0x10_0000 ::
                Translate(Tables(), p) == Fault
      ensures directory != 0 ==>
                && TwoTables(Tables()) && BootFrames(Tables(), directory / 4096) !! old(pmm.Used())
                && pmm.Used() == old(pmm.Used()) + BootFrames(Tables(), directory / 4096)
                && BootFits(old(pmm.Used()), pmm.maxBlocks, Tables().pd[768] / 4096, Tables().pd[0] / 4096,
                            directory / 4096)
    {
      hide FirstFit, FreeRun, HasFreeRun, Drift, IsInitial, Separate, Translate, AllPresent;
      hide TwoTables, BootFrames, Read;
      var table, table2 := BootTables();
      if table == 0 || table2 == 0 {
        return;
      }
      ghost var u, c, limit := pmm.Used(), pmm.usedBlocks, pmm.maxBlocks;
      NotAtZero(u, limit, 3);
      var dir := pmm.AllocateBlocks(3);
      if dir == 0 {
        return;
      }
      Taken(u, limit, dir / 4096, 3, c);
      assert BootFits(old(pmm.Used()), limit, table / 4096, table2 / 4096, dir / 4096);
      hide BootFits;
      InstallDirectory(dir, table, table2);
      InitialSlots(ram[..], table / 4096, table2 / 4096, dir / 4096, pmm.Used());
      InitialTranslation(ram[..], table / 4096, table2 / 4096, dir / 4096, pmm.Used());
    }

    /** Points slot 768 of a cleared directory at table, slot 0 at table2, and makes it current. */
    method InstallDirectory(dir: uint32, table: uint32, table2: uint32)
      requires Hardware() && dir % 4096 == table % 4096 == table2 % 4096 == 0
      requires 0 < dir && 0 < table && 0 < table2 && dir != table && dir != table2 && table != table2
      requires forall i | 0 <= i < ENTRIES :: ram[table2 / 4096][i] == i * 4096 + 3
      requires forall i | 0 <= i < ENTRIES :: ram[table / 4096][i] == 0x10_0000 + i * 4096 + 3
      modifies this`directory, ram
      ensures IsInitial(ram[..], table / 4096, table2 / 4096, dir / 4096) && directory == dir
    {
      hide PageEntry, PdIndex;
      var d := dir / 4096;
      ClearFrame(d);
      ram[d] := ram[d][PdIndex(0xC000_0000) := PageEntry(table)];
      ram[d] := ram[d][PdIndex(0) := PageEntry(table2)];
      directory := dir;
    }

    /** Maps 1024 consecutive frames, one page after another, in the given table. */
    method FillTable(table: nat, firstFrame: uint32, firstPage: uint32)
      requires Hardware() && table < PAGES
      requires firstFrame % 4096 == 0 && firstFrame <= 0x10_0000
      requires firstPage % 0x40_0000 == 0 && firstPage <= 0xC000_0000
      modifies ram
      ensures ram[..] == old(ram[..])[table := ram[table]]
      ensures forall i | 0 <= i < ENTRIES :: ram[table][i] == firstFrame + i * 4096 + 3
    {
      hide PtIndex, PageEntry;
      var frame, virt := firstFrame, firstPage;
      for i := 0 to ENTRIES
        invariant frame == firstFrame + i * 4096 && virt == firstPage + i * 4096
        invariant ram[..] == old(ram[..])[table := ram[table]]
        invariant forall j | 0 <= j < i :: ram[table][j] == firstFrame + j * 4096 + 3
      {
        assert virt / 4096 % 1024 == i;
        ram[table] := ram[table][PtIndex(virt) := PageEntry(frame)];
        frame, virt := frame + 4096, virt + 4096;
      }
    }
  }
}
