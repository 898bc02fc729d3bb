/** The order of the boot steps: bitmap, memory map, reservations, paging, unmapping. */
module Boot {
  import opened Bitwise
  import opened PhysicalMemory
  import opened PageTables
  import opened PagingRuns
  import opened BitmapFrames
  import opened MemoryMap
  import opened InitialTables
  import opened VirtualMemory

  /** Frees what each available entry of the memory map covers. */
  method FreeAvailable(pmm: FrameAllocator, smap: seq<SmapEntry>)
    requires pmm.Valid() && pmm.maxBlocks == MAX_BLOCKS && pmm.memoryMap.Length == 0x8000 && InRange(smap)
    requires pmm.Used() == Blocks(0, MAX_BLOCKS) && pmm.usedBlocks == MAX_BLOCKS
    modifies pmm`usedBlocks, pmm.memoryMap
    ensures pmm.Valid() && pmm.Used() == Blocks(0, MAX_BLOCKS) - Covered(smap) + {0}
    ensures pmm.usedBlocks == (MAX_BLOCKS - Total(smap)) % 0x1_0000_0000
  {
    hide Covered, Total;
    NoEntries();
    for i := 0 to |smap|
      invariant pmm.Valid()
      invariant pmm.Used() == Blocks(0, MAX_BLOCKS) - Covered(smap[..i]) + {0}
      invariant pmm.usedBlocks == (MAX_BLOCKS - Total(smap[..i])) % 0x1_0000_0000
    {
      OneMoreEntry(smap, i);
      assert smap[i] in smap;
      if smap[i].kind == 1 {
        pmm.InitializeMemoryRegion(Low32(smap[i].baseAddress), Low32(smap[i].length));
      }
      assert Count(smap[i]) == 0 ==> Blocks(Start(smap[i]), Count(smap[i])) == {};
    }
    assert smap[..|smap|] == smap;
  }

  /** Builds the bitmap from the memory map and reserves what boot keeps. */
  method ReserveMemory(pmm: FrameAllocator, smap: seq<SmapEntry>)
    requires pmm.memoryMap.Length == 0x8000 && pmm.usedBlocks == 0 && InRange(smap)
    modifies pmm, pmm.memoryMap
    ensures pmm.Valid() && pmm.maxBlocks == MAX_BLOCKS && pmm.Used() == UsedAfterBoot(smap)
    ensures pmm.usedBlocks == (MAX_BLOCKS - Total(smap) + 38) % 0x1_0000_0000
  {
    hide Covered, Total, Blocks, Add32, UsedAfterBoot;
    pmm.InitializePmm();
    NoWrap();
    FreeAvailable(pmm, smap);
    ThreeReservations(smap, pmm.usedBlocks);
    pmm.DeinitMemoryRegion(0, 0x1_2000);
    pmm.DeinitMemoryRegion(MEMMAP_AREA, pmm.maxBlocks / BLOCK_SIZE);
    pmm.DeinitMemoryRegion(0x10_0000, 81920);
  }

  lemma NoWrap()
    ensures Add32(0, MAX_BLOCKS) == MAX_BLOCKS
  {
  }

  /** What the three calls add up to; the one for the bitmap adds nothing. */
  lemma ThreeReservations(smap: seq<SmapEntry>, counter: uint32)
    requires counter == (MAX_BLOCKS - Total(smap)) % 0x1_0000_0000
    ensures Blocks(0, MAX_BLOCKS) - Covered(smap) + {0} + Blocks(0, 18) + Blocks(48, 0) + Blocks(256, 20)
         == UsedAfterBoot(smap)
    ensures Add32(Add32(Add32(counter, 18), 0), 20) == (MAX_BLOCKS - Total(smap) + 38) % 0x1_0000_0000
  {
    hide Covered, Total;
    ModMinus(MAX_BLOCKS - Total(smap), -18);
    ModMinus(MAX_BLOCKS - Total(smap) + 18, -20);
  }

  lemma NoEntries()
    ensures Covered([]) == {} && Total([]) == 0
  {
  }

  /** Removes the pages from 1 MB to 4 MB, one call each. */
  method UnmapLowMemory(mmu: Mmu)
    requires mmu.Hardware()
    requires mmu.directory != 0 ==> mmu.Valid() && AllPresent(mmu.Tables())
    modifies mmu.ram
    ensures mmu.directory != 0 ==>
              mmu.Valid() && AllPresent(mmu.Tables()) && mmu.Tables().pd == old(mmu.Tables()).pd
    ensures mmu.directory != 0 ==> forall p: nat | p < PAGES ::
              Translate(mmu.Tables(), p) == if 0x100 <= p < 0x400 then Fault else Translate(old(mmu.Tables()), p)
  {
    hide Translate, Separate, UnmapStep;
    var virt := 0x10_0000;
    while virt < 0x40_0000
      invariant 0x10_0000 <= virt <= 0x40_0000 && virt % 4096 == 0
      invariant mmu.directory != 0 ==> mmu.Valid() && mmu.Tables().pd == old(mmu.Tables()).pd
      invariant mmu.directory != 0 ==> forall p: nat | p < PAGES ::
          Translate(mmu.Tables(), p) == if 0x100 <= p < virt / 4096 then Fault else Translate(old(mmu.Tables()), p)
    {
      ghost var v := mmu.Tables();
      mmu.UnmapPage(virt);
      if mmu.directory != 0 {
        Unmapped(v, mmu.Tables(), mmu.directory / 4096, virt / 4096);
      }
      virt := virt + 4096;
    }
  }

  lemma Unmapped(v: View, w: View, dir: nat, page: nat)
    requires Separate(v, dir) && page < PAGES && UnmapStep(v, w, page)
    ensures w.pd == v.pd && Translate(w, page) == Fault
    ensures forall p | 0 <= p < PAGES && p != page :: Translate(w, p) == Translate(v, p)
  {
    UnmapFaults(v, w, page);
  }

  /** The frames that boot clears, the first fits for two tables and then for a directory, are none of the bitmap's. */
  ghost predicate FitsOffBitmap(used: set<nat>, limit: nat) {
    forall high: nat, low: nat | TableFits(used, limit, high, low) ::
      && high !in Bitmap() && low !in Bitmap()
      && forall dir: nat | FirstFit(used + {high, low}, limit, dir, 3) :: dir !in Bitmap()
  }

  ghost predicate TableFits(used: set<nat>, limit: nat, high: nat, low: nat) {
    FirstFit(used, limit, high, 1) && FirstFit(used + {high}, limit, low, 1)
  }

  lemma FitsAre(used: set<nat>, limit: nat, high: nat, low: nat, dir: nat)
    requires BootFits(used, limit, high, low, dir)
    ensures FitsOffBitmap(used, limit) <==> {high, low, dir} !! Bitmap()
  {
    hide FirstFit, Bitmap;
    assert TableFits(used, limit, high, low);
    if {high, low, dir} !! Bitmap() {
      forall h: nat, l: nat | TableFits(used, limit, h, l)
        ensures h == high && l == low
        ensures forall d: nat | FirstFit(used + {h, l}, limit, d, 3) :: d == dir
      {
        FirstFitUnique(used, limit, h, high, 1);
        FirstFitUnique(used + {high}, limit, l, low, 1);
        forall d: nat | FirstFit(used + {h, l}, limit, d, 3)
          ensures d == dir
        {
          FirstFitUnique(used + {high, low}, limit, d, dir, 3);
        }
      }
    }
  }

  /** Five free blocks in a row below the bitmap are enough for that. */
  lemma FiveBelowBitmap(used: set<nat>, limit: nat)
    requires BITMAP_START <= limit && HasFreeRun(used, BITMAP_START, 5)
    ensures FitsOffBitmap(used, limit)
  {
    hide FirstFit, HasFreeRun, Blocks;
    forall high: nat, low: nat | TableFits(used, limit, high, low)
      ensures high !in Bitmap() && low !in Bitmap()
      ensures forall dir: nat | FirstFit(used + {high, low}, limit, dir, 3) :: dir !in Bitmap()
    {
      BelowBitmap();
      FitBelow(used, limit, high, 1, 4);
      OneBlock(high);
      FitBelow(used + {high}, limit, low, 1, 3);
      OneBlock(low);
      assert used + {high} + {low} == used + {high, low};
      forall dir: nat | FirstFit(used + {high, low}, limit, dir, 3)
        ensures dir !in Bitmap()
      {
        FitBelow(used + {high, low}, limit, dir, 3, 0);
      }
    }
  }

  lemma BelowBitmap()
    ensures forall b: nat | b < BITMAP_START :: b !in Bitmap()
  {
  }

  lemma OneBlock(b: nat)
    ensures Blocks(b, 1) == {b}
  {
  }

  /** With n + rest blocks free below the bitmap, the first fit for n lies there and leaves the rest. */
  lemma FitBelow(used: set<nat>, limit: nat, s: nat, n: nat, rest: nat)
    requires BITMAP_START <= limit && HasFreeRun(used, BITMAP_START, n + rest) && FirstFit(used, limit, s, n) && n > 0
    ensures s < BITMAP_START && HasFreeRun(used + Blocks(s, n), BITMAP_START, rest)
  {
    var t: nat :| FreeRun(used, BITMAP_START, t, n + rest);
    assert FreeRun(used, limit, t, n) && FreeRun(used, BITMAP_START, t, n);
    assert s <= t;
    assert FreeRun(used + Blocks(s, n), BITMAP_START, t + n, rest);
  }

  /** A map that covers nothing below the bitmap has boot clear the bitmap's first frame, and with it the marks of what
      it reserved. */
  lemma BootClearsBitmap(mem: seq<Frame>)
    requires |mem| == PAGES
    ensures var used := UsedAfterBoot([SmapEntry(MEMMAP_AREA, 0x3F0_0000, 1)]);
            && FirstFit(used, MAX_BLOCKS, BITMAP_START, 1) && !FitsOffBitmap(used, MAX_BLOCKS)
            && !(used <= UsedIn(mem[BITMAP_START := ZeroFrame()], MAX_BLOCKS))
  {
    hide FirstFit, FitsOffBitmap;
    var smap := [SmapEntry(MEMMAP_AREA, 0x3F0_0000, 1)];
    var used := UsedAfterBoot(smap);
    assert smap[..0] == [];
    assert Covered(smap) == Blocks(BITMAP_START, 0x3F00);
    LowestFreeIs(used, MAX_BLOCKS, BITMAP_START);
    LowestFreeIs(used + {BITMAP_START}, MAX_BLOCKS, BITMAP_START + 1);
    NotOffBitmap(used, MAX_BLOCKS, BITMAP_START, BITMAP_START + 1);
    ZeroInUse(smap);
    ClearingFrees(mem, MAX_BLOCKS, 0);
    assert 0 in Blocks(0, 0x8000);
  }

  lemma NotOffBitmap(used: set<nat>, limit: nat, high: nat, low: nat)
    requires FirstFit(used, limit, high, 1) && FirstFit(used + {high}, limit, low, 1) && high in Bitmap()
    ensures !FitsOffBitmap(used, limit)
  {
    assert TableFits(used, limit, high, low);
  }

  /** With the bitmap's frames in use, boot takes none of them. */
  lemma BootOffBitmap(smap: seq<SmapEntry>, v: View, dir: nat)
    requires Separate(v, dir) && TwoTables(v) && BootFrames(v, dir) !! UsedAfterBoot(smap)
    requires v.used == UsedAfterBoot(smap) + BootFrames(v, dir) && Bitmap() !! Covered(smap)
    ensures OffBitmap(v, dir)
  {
    hide Covered, UsedAfterBoot;
    BitmapFramesNotReserved(smap);
    assert dir in BootFrames(v, dir);
  }

  /** When the map covers more of them than the five frames that boot takes, or one and boot takes none, one is free
      after boot. */
  lemma BitmapFrameLeft(smap: seq<SmapEntry>, v: View, dir: nat)
    requires TwoTables(v) && v.used == UsedAfterBoot(smap) + BootFrames(v, dir)
    requires |Bitmap() * Covered(smap)| > 5 || (BootFrames(v, dir) !! Bitmap() && !(Bitmap() !! Covered(smap)))
    ensures !(Bitmap() <= v.used)
  {
    var taken := BootFrames(v, dir);
    assert |taken| <= 5 by {
      BlocksCount(dir, 3);
      assert taken == {v.pd[0] / 4096, v.pd[768] / 4096} + Blocks(dir, 3);
    }
    hide Covered, UsedAfterBoot, BootFrames;
    BitmapFramesNotReserved(smap);
    var offered := Bitmap() * Covered(smap);
    if offered <= taken {
      SmallerCount(taken, offered);
    }
  }

  /** Then one of them can become a page table. */
  lemma BootLeavesBitmapFree(v: View, dir: nat)
    requires Separate(v, dir) && TwoTables(v) && !(Bitmap() <= v.used)
    ensures exists trace: seq<View>, ops: seq<Op> ::
              && Run(trace, ops, MAX_BLOCKS) && trace[0] == v
              && |trace[|ops|].pd| == ENTRIES && trace[|ops|].pd[1] / 4096 in Bitmap()
  {
    var b :| b in Bitmap() && b !in v.used;
    BitmapInLimit();
    assert b < MAX_BLOCKS;
    var trace, ops := BitmapBecomesTable(v, dir, MAX_BLOCKS, 1, b);
  }

  lemma ZeroInUse(smap: seq<SmapEntry>)
    ensures 0 in UsedAfterBoot(smap)
  {
    assert 0 in Blocks(0, 18);
  }

  /** What boot and paging add to the counter keeps it as right or wrong as it was. */
  lemma BalancedAfterBoot(smap: seq<SmapEntry>, counter: uint32, after: uint32, used: set<nat>)
    requires InRange(smap) && Disjoint(smap) && forall b | b in used :: b < 0x10_0000
    requires counter == (MAX_BLOCKS - Total(smap) + 38) % 0x1_0000_0000
    requires Drift(after, used) == Drift(counter, UsedAfterBoot(smap))
    ensures after == |used| <==>
              if MAX_BLOCKS in Covered(smap) then |Reserved() - Covered(smap)| == 1 else Reserved() <= Covered(smap)
  {
    hide Covered, Total, Drift, Disjoint, InRange, UsedAfterBoot, Reserved;
    CounterRightIffCovered(smap, counter);
    AfterBootInRange(smap);
    DriftIsZero(counter, UsedAfterBoot(smap), MAX_BLOCKS);
    DriftIsZero(after, used, 0x10_0000);
  }

  /** The memory part of boot. Five free blocks in a row are enough for paging; with fewer there may be no directory.
      What it says of the result holds when the first fits for the tables and the directory are off the bitmap, which
      the frames taken then are. */
  method PrekernelMain(mmu: Mmu, smap: seq<SmapEntry>)
    requires mmu.pmm.memoryMap.Length == 0x8000 && mmu.ram.Length == PAGES
    requires mmu.pmm.usedBlocks == 0 && mmu.directory == 0 && InRange(smap)
    modifies mmu`directory, mmu.ram, mmu.pmm, mmu.pmm.memoryMap
    ensures mmu.Hardware() && mmu.pmm.maxBlocks == MAX_BLOCKS
    ensures FitsOffBitmap(UsedAfterBoot(smap), MAX_BLOCKS) ==>
              && UsedAfterBoot(smap) <= mmu.pmm.Used()
              && Drift(mmu.pmm.usedBlocks, mmu.pmm.Used()) == BootError(smap) % 0x1_0000_0000
              && (Disjoint(smap) ==>
                    (mmu.pmm.Balanced() <==>
                     if MAX_BLOCKS in Covered(smap) then |Reserved() - Covered(smap)| == 1
                     else Reserved() <= Covered(smap)))
              && (HasFreeRun(UsedAfterBoot(smap), MAX_BLOCKS, 5) ==> mmu.directory != 0)
              && (mmu.directory != 0 ==> IsBooted(smap, mmu))
    ensures mmu.directory != 0 ==>
              && TwoTables(mmu.Tables())
              && BootFits(UsedAfterBoot(smap), MAX_BLOCKS, mmu.Tables().pd[768] / 4096, mmu.Tables().pd[0] / 4096,
                          mmu.directory / 4096)
              && (PagingOffBitmap(mmu.Tables(), mmu.directory / 4096) <==>
                  FitsOffBitmap(UsedAfterBoot(smap), MAX_BLOCKS))
    ensures mmu.directory != 0 && Bitmap() !! Covered(smap) ==>
              IsBooted(smap, mmu) && OffBitmap(mmu.Tables(), mmu.directory / 4096)
  {
    hide HasFreeRun, Covered, Total, Translate, AllPresent, Drift, Separate, Disjoint;
    hide Bitmap, OffBitmap, TwoTables, BootFrames, BootError, InRange, Blocks, UsedAfterBoot, FitsOffBitmap, BootFits;
    hide PagingOffBitmap;
    ReserveMemory(mmu.pmm, smap);
    ghost var counter := mmu.pmm.usedBlocks;
    ZeroInUse(smap);
    mmu.InitializeVmm();
    ghost var v := mmu.Tables();
    UnmapLowMemory(mmu);
    BootDrift(smap, counter);
    if mmu.directory != 0 {
      SameSlots(v, mmu.Tables(), mmu.directory / 4096);
      PagingIsOff(UsedAfterBoot(smap), mmu.Tables(), mmu.directory / 4096);
      if Bitmap() !! Covered(smap) {
        BootOffBitmap(smap, mmu.Tables(), mmu.directory / 4096);
      }
    }
    if Disjoint(smap) {
      BalancedAfterBoot(smap, counter, mmu.pmm.usedBlocks, mmu.pmm.Used());
    }
  }

  /** Paging is on: the walk of every page, and the frames that were taken. */
  ghost predicate IsBooted(smap: seq<SmapEntry>, mmu: Mmu)
    reads mmu, mmu.pmm`maxBlocks, mmu.pmm.memoryMap, mmu.ram
  {
    && mmu.Valid() && AllPresent(mmu.Tables()) && TwoTables(mmu.Tables())
    && (forall p: nat | p < 0x100 :: Translate(mmu.Tables(), p) == Frame(p))
    && (forall p: nat | 0x100 <= p < 0xC_0000 || 0xC_0400 <= p < 0x10_0000 :: Translate(mmu.Tables(), p) == Fault)
    && (forall p: nat | 0xC_0000 <= p < 0xC_0400 :: Translate(mmu.Tables(), p) == Frame(p - 0xC_0000 + 0x100))
    && mmu.pmm.Used() == UsedAfterBoot(smap) + BootFrames(mmu.Tables(), mmu.directory / 4096)
  }

  lemma PagingIsOff(used: set<nat>, v: View, dir: nat)
    requires TwoTables(v) && BootFits(used, MAX_BLOCKS, v.pd[768] / 4096, v.pd[0] / 4096, dir)
    ensures PagingOffBitmap(v, dir) <==> FitsOffBitmap(used, MAX_BLOCKS)
  {
    hide FirstFit, Bitmap, FitsOffBitmap;
    FitsAre(used, MAX_BLOCKS, v.pd[768] / 4096, v.pd[0] / 4096, dir);
  }

  lemma SameSlots(v: View, w: View, dir: nat)
    requires TwoTables(v) && w.pd == v.pd
    ensures TwoTables(w) && BootFrames(w, dir) == BootFrames(v, dir)
    ensures w.pd[768] == v.pd[768] && w.pd[0] == v.pd[0]
  {
  }
}
