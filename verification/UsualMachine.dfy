/** Boot and heap on a machine of 64 MB: the heap starts, and its 25th new page lies in the bitmap. */
module UsualMachine {
  import opened Bitwise
  import opened PhysicalMemory
  import opened PageTables
  import opened PagingRuns
  import opened PageRanges
  import opened BitmapFrames
  import opened MemoryMap
  import opened InitialTables
  import opened VirtualMemory
  import opened Boot
  import opened HeapRuns
  import opened HeapMemory
  import opened HeapHazards
  import opened Heap

  const HEAP_START: uint32 := 0x40_0000
  const HEAP_PAGES: nat := 256

  /** The blocks in use when paging is set up. */
  ghost function UsualUsed(): set<nat> { UsedAfterBoot(UsualMap()) }

  lemma UsualUsedIs(b: nat)
    ensures b in UsualUsed() <==> b < MAX_BLOCKS && (b < 18 || 0x9F <= b < 276 || 0x4000 <= b)
  {
    hide Covered;
    UsualCovered();
  }

  lemma UsualFits()
    ensures BootFits(UsualUsed(), MAX_BLOCKS, 18, 19, 20) && FitsOffBitmap(UsualUsed(), MAX_BLOCKS)
    ensures HasFreeRun(UsualUsed(), MAX_BLOCKS, 5)
  {
    hide UsualUsed, FitsOffBitmap, FirstFit;
    forall b: nat
      ensures b in UsualUsed() <==> b < MAX_BLOCKS && (b < 18 || 0x9F <= b < 276 || 0x4000 <= b)
    {
      UsualUsedIs(b);
    }
    FitAt(UsualUsed(), 18, 1);
    FitAt(UsualUsed() + {18}, 19, 1);
    FitAt(UsualUsed() + {18, 19}, 20, 3);
    FitsAre(UsualUsed(), MAX_BLOCKS, 18, 19, 20);
    assert FreeRun(UsualUsed(), MAX_BLOCKS, 18, 5);
  }

  /** A free run with all blocks before it in use is the first fit. */
  lemma FitAt(used: set<nat>, s: nat, n: nat)
    requires FreeRun(used, MAX_BLOCKS, s, n) && n > 0 && forall b: nat | b < s :: b in used
    ensures FirstFit(used, MAX_BLOCKS, s, n)
  {
    forall t: nat | t < s
      ensures !FreeRun(used, MAX_BLOCKS, t, n)
    {
      assert t in used;
    }
  }

  /** After boot, each single frame allocated is the next one; the 26th is the first of the bitmap. */
  lemma NextFrame(n: nat)
    requires n <= 25
    ensures FirstFit(UsualUsed() + Blocks(18, 5 + n), MAX_BLOCKS, 23 + n, 1)
    ensures 23 + n in Bitmap() <==> n == 25
  {
    hide UsualUsed;
    forall b: nat
      ensures b in UsualUsed() <==> b < MAX_BLOCKS && (b < 18 || 0x9F <= b < 276 || 0x4000 <= b)
    {
      UsualUsedIs(b);
    }
    LowestFreeIs(UsualUsed() + Blocks(18, 5 + n), MAX_BLOCKS, 23 + n);
  }

  /** What boot leaves: five frames more in use, and a table for the low 4 MB. */
  ghost predicate IsStarted(v: View) {
    && |v.pd| == ENTRIES && |v.leaf| == PAGES && v.pd[0] != 0 && v.pd[1] == 0
    && v.used == UsualUsed() + Blocks(18, 5)
  }

  lemma StartedFit(v: View)
    requires IsStarted(v)
    ensures FirstFit(v.used, MAX_BLOCKS, 276, HEAP_PAGES) && Blocks(276, HEAP_PAGES) !! Bitmap()
    ensures forall f: nat | f < BITMAP_START :: f in v.used + Blocks(276, HEAP_PAGES) <==> f < 23
  {
    hide UsualUsed;
    forall b: nat
      ensures b in UsualUsed() <==> b < MAX_BLOCKS && (b < 18 || 0x9F <= b < 276 || 0x4000 <= b)
    {
      UsualUsedIs(b);
    }
    assert FreeRun(v.used, MAX_BLOCKS, 276, HEAP_PAGES);
    forall t: nat | t < 276
      ensures !FreeRun(v.used, MAX_BLOCKS, t, HEAP_PAGES)
    {
      assert (if t < 0x9F then 0x9F else t) in v.used;
    }
  }

  lemma OneMissing(pd: seq<uint32>)
    requires |pd| == ENTRIES && pd[1] == 0
    ensures Missing(pd, 1024, HEAP_PAGES) == {1}
  {
  }

  lemma StartedRoomy(v: View, b: nat)
    requires IsStarted(v) && 24 <= b <= BITMAP_START
    ensures Roomy(WithBlocks(v, 276, HEAP_PAGES), 1024, HEAP_PAGES, b, MAX_BLOCKS)
    ensures FreeBelow(WithBlocks(v, 276, HEAP_PAGES).used, b) !! Bitmap()
  {
    hide UsualUsed, Missing, FirstFit;
    StartedFit(v);
    OneMissing(v.pd);
    var free := FreeBelow(WithBlocks(v, 276, HEAP_PAGES).used, b);
    assert 23 in free;
    SubsetSize({23}, free);
  }

  /** There are frames for the heap, and room for its table. */
  lemma StartedRoom(v: View)
    requires IsStarted(v)
    ensures GoodFit(v.used, MAX_BLOCKS, HEAP_PAGES)
    ensures RoomForTables(v, MAX_BLOCKS, HEAP_START, HEAP_START, HEAP_PAGES)
  {
    hide IsStarted, FirstFit, Bitmap, Blocks, Roomy, FreeBelow;
    StartedFit(v);
    StartedRoomy(v, BITMAP_START);
    assert HasFreeRun(v.used, MAX_BLOCKS, HEAP_PAGES) by {
      FitIsRun(v.used, 276, HEAP_PAGES);
    }
    assert Room(WithBlocks(v, 276, HEAP_PAGES), MAX_BLOCKS, HEAP_START, HEAP_START, HEAP_PAGES);
    forall s: nat | FirstFit(v.used, MAX_BLOCKS, s, HEAP_PAGES)
      ensures s == 276
    {
      FirstFitUnique(v.used, MAX_BLOCKS, s, 276, HEAP_PAGES);
    }
  }

  lemma FitIsRun(used: set<nat>, s: nat, n: nat)
    requires FirstFit(used, MAX_BLOCKS, s, n)
    ensures HasFreeRun(used, MAX_BLOCKS, n)
  {
  }

  /** Setting up the heap takes frames 276 to 531, and 23 for the table. */
  lemma StartedTakes(v: View, w: View, phys: uint32)
    requires IsStarted(v) && PagesTaken(v, w, HEAP_START, phys, HEAP_PAGES, MAX_BLOCKS)
    ensures w.used == UsualUsed() + Blocks(18, 6) + Blocks(276, HEAP_PAGES)
    ensures |w.pd| == ENTRIES && w.pd[1] == 23 * 4096 + 7 && |w.leaf| == PAGES
    ensures forall p: nat | 0x400 <= p < 0x500 :: w.leaf[p] == (p - 0x400 + 276) * 4096 + 7
  {
    hide FirstFit, Roomy, UsualUsed, Missing, HasFreeRun, FreeBelow;
    StartedFit(v);
    FitIsRun(v.used, 276, HEAP_PAGES);
    FirstFitUnique(v.used, MAX_BLOCKS, 276, phys / 4096, HEAP_PAGES);
    var m := WithBlocks(v, 276, HEAP_PAGES);
    StartedRoomy(v, 24);
    OneMissing(v.pd);
    assert Tabled(m, w, 1024, HEAP_PAGES, 24);
    assert w.pd[1024 / 1024] != 0;
    assert IsNew(m, w, 1) && w.pd[1] / 4096 == 23;
    assert NewTables(m, w) == {23};
    forall p: nat | 0x400 <= p < 0x500
      ensures w.leaf[p] == (p - 0x400 + 276) * 4096 + 7
    {
      assert w.pd[p / 1024] != 0;
    }
    assert Blocks(18, 6) == Blocks(18, 5) + {23};
  }

  /** Boot and the set-up of the heap, from the memory map on: the heap is intact. */
  method StartUp(mmu: Mmu) returns (heap: Allocator, address: uint32)
    requires mmu.pmm.memoryMap.Length == 0x8000 && mmu.ram.Length == PAGES
    requires mmu.pmm.usedBlocks == 0 && mmu.directory == 0
    modifies mmu`directory, mmu.ram, mmu.pmm, mmu.pmm.memoryMap
    ensures fresh(heap) && heap.mmu == mmu && heap.Valid() && mmu.pmm.maxBlocks == MAX_BLOCKS
    ensures HeapState(heap.blocks, heap.heapEnd) == FreshHeap(HEAP_START) && heap.mallocHead == HEAP_START
    ensures mmu.pmm.Used() == UsualUsed() + Blocks(18, 6) + Blocks(276, HEAP_PAGES)
    ensures mmu.Tables().pd[1] == 23 * 4096 + 7
    ensures forall p: nat | 0x400 <= p < 0x500 :: mmu.Tables().leaf[p] == (p - 0x400 + 276) * 4096 + 7
  {
    hide FitsOffBitmap, BootFits, Separate, Backed, IsBooted, IsStarted, GrowthRule, SupplyRule, PagesTaken;
    hide HasFreeRun, InRange, BootError, Drift, Covered, UsedAfterBoot, PagingOffBitmap, TwoTables, LeafOf;
    hide OffBitmap, Bitmap, Disjoint, Blocks, UsualMap, Reserved;
    UsualCovered();
    UsualFits();
    PrekernelMain(mmu, UsualMap());
    ghost var v, dir := mmu.Tables(), mmu.directory / 4096;
    BootedIsStarted(mmu);
    heap := new Allocator(mmu, HEAP_START);
    var intact;
    address, intact := heap.MallocInit();
    StartedRoom(v);
    StartedGrows(v, mmu.Tables(), dir);
    StartedTakes(v, mmu.Tables(), heap.mallocPhysAddress);
  }

  lemma BootedIsStarted(mmu: Mmu)
    requires mmu.Hardware() && IsBooted(UsualMap(), mmu) && PagingOffBitmap(mmu.Tables(), mmu.directory / 4096)
    requires TwoTables(mmu.Tables())
    requires BootFits(UsualUsed(), MAX_BLOCKS, mmu.Tables().pd[768] / 4096, mmu.Tables().pd[0] / 4096,
                      mmu.directory / 4096)
    ensures mmu.Valid() && IsStarted(mmu.Tables())
    ensures Backed(mmu.Tables(), mmu.directory / 4096, HEAP_START, HEAP_START)
  {
    hide UsualMap, UsedAfterBoot, Bitmap, Separate, BootFits, Translate, PagingOffBitmap, AllPresent;
    UsualFits();
    BootFitsUnique(UsualUsed(), MAX_BLOCKS, 18, 19, 20, mmu.Tables().pd[768] / 4096, mmu.Tables().pd[0] / 4096,
                   mmu.directory / 4096);
    assert Blocks(18, 5) == {18, 19} + Blocks(20, 3);
  }

  lemma StartedGrows(v: View, w: View, dir: nat)
    requires GrowthRule(v, w, dir, HEAP_START, HEAP_START, HEAP_PAGES, MAX_BLOCKS)
    requires Backed(v, dir, HEAP_START, HEAP_START) && IsStarted(v)
    ensures Backed(w, dir, HEAP_START, HEAP_START + 0x10_0000)
  {
    hide Backed, IsStarted, RoomForTables, GoodFit;
    StartedRoom(v);
  }

  /** What is in use when the heap has grown by n pages. */
  ghost function GrownUsed(n: nat): set<nat> {
    UsualUsed() + Blocks(18, 6) + Blocks(276, HEAP_PAGES) + Blocks(24, n)
  }

  /** Each page takes the next frame; the 25th is to take frame 48, the first of the bitmap. */
  lemma NextPageFrame(n: nat)
    requires n <= 24
    ensures FirstFit(GrownUsed(n), MAX_BLOCKS, 24 + n, 1)
    ensures GrownUsed(n) + Blocks(24 + n, 1) == GrownUsed(n + 1)
    ensures 24 + n in Bitmap() <==> n == 24
  {
    hide UsualUsed;
    forall b: nat
      ensures b in UsualUsed() <==> b < MAX_BLOCKS && (b < 18 || 0x9F <= b < 276 || 0x4000 <= b)
    {
      UsualUsedIs(b);
    }
    LowestFreeIs(GrownUsed(n), MAX_BLOCKS, 24 + n);
  }

  /** Growing a heap that has just been started, page by page: 24 times it stays intact, and the 25th time its new page
      leads to the first frame of the bitmap. */
  method GrowIntoBitmap(heap: Allocator)
    requires heap.Valid() && heap.mmu.pmm.maxBlocks == MAX_BLOCKS && heap.heapEnd == HEAP_START + 0x10_0000
    requires heap.mallocHead == HEAP_START && heap.mmu.Tables().pd[1] != 0
    requires heap.mmu.pmm.Used() == GrownUsed(0)
    modifies heap, heap.mmu.ram, heap.mmu.pmm`usedBlocks, heap.mmu.pmm.memoryMap
    ensures heap.mmu.Valid() && heap.heapEnd == HEAP_START + 0x10_0000 + 25 * 4096 && !heap.InMemory()
    ensures heap.mmu.Tables().leaf[(HEAP_START + 0x10_0000) / 4096 + 24] == 48 * 4096 + 7
  {
    hide GrownUsed, Backed, Separate, Foretold, PagesTaken, Bitmap, LeafOf, PageBytes;
    var i := 0;
    while i < 25
      invariant i <= 25 && heap.mmu.Valid() && heap.heapEnd == HEAP_START + 0x10_0000 + i * 4096
      invariant (i < 25 ==> heap.Valid()) && (i == 25 ==> !heap.InMemory())
      invariant heap.mallocHead == HEAP_START && heap.mmu.Tables().pd[1] != 0 && heap.mmu.pmm.Used() == GrownUsed(i)
      invariant i > 0 ==>
          heap.mmu.Tables().leaf[(HEAP_START + 0x10_0000) / 4096 + i - 1] == (23 + i) * 4096 + USER_PAGE
    {
      ghost var v := heap.mmu.Tables();
      OnePage();
      var address, intact := heap.MallocMorePages(4000);
      PageTaken(v, heap.mmu.Tables(), heap.mmu.directory / 4096, heap.mallocPhysAddress, i);
      i := i + 1;
    }
  }

  lemma OnePage()
    ensures PageBytes(4000) == 4096
  {
  }

  lemma PageTaken(v: View, w: View, dir: nat, phys: uint32, i: nat)
    requires i <= 24 && Separate(v, dir) && v.used == GrownUsed(i) && |v.pd| == ENTRIES && v.pd[1] != 0
    requires Backed(v, dir, HEAP_START, HEAP_START + 0x10_0000 + i * 4096)
    requires PagesTaken(v, w, HEAP_START + 0x10_0000 + i * 4096, phys, 1, MAX_BLOCKS)
    ensures w.used == GrownUsed(i + 1) && |w.pd| == ENTRIES && w.pd[1] != 0
    ensures |w.leaf| == PAGES && w.leaf[(HEAP_START + 0x10_0000) / 4096 + i] == (24 + i) * 4096 + USER_PAGE
    ensures Backed(w, dir, HEAP_START, HEAP_START + 0x10_0000 + (i + 1) * 4096) <==> i < 24
  {
    hide GrownUsed, Separate, Backed, Bitmap, FirstFit, RangeStep, HasFreeRun;
    var hi, frame := HEAP_START + 0x10_0000 + i * 4096, 24 + i;
    NextPageFrame(i);
    FitIsRun(v.used, frame, 1);
    FirstFitUnique(v.used, MAX_BLOCKS, frame, phys / 4096, 1);
    var m := WithBlocks(v, frame, 1);
    assert hi / 4096 / 1024 == 1 && hi / 4096 == (HEAP_START + 0x10_0000) / 4096 + i;
    NoneMade(m, w, hi, frame, 1, MAX_BLOCKS);
    FirstPage(m, w, hi / 4096, frame, MAX_BLOCKS);
    SameNewTables(v, m, w);
    NoNewTables(v, w);
    BackedOff(v, w, dir, HEAP_START, hi);
    GrowthWithFrames(v, w, dir, HEAP_START, hi, frame, 1, MAX_BLOCKS);
    assert Blocks(frame, 1) == {frame};
  }

  lemma NoNewTables(v: View, w: View)
    requires |v.pd| == ENTRIES && w.pd == v.pd
    ensures NewTables(v, w) == {}
  {
  }

  lemma BackedOff(v: View, w: View, dir: nat, lo: nat, hi: nat)
    requires Backed(v, dir, lo, hi) && w.pd == v.pd
    ensures PagingOffBitmap(w, dir)
  {
  }
}
