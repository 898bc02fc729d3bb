/** Heaps that do not stay what was written: grown into the bitmap, or into the address of a page table. */
module HeapHazards {
  import opened Bitwise
  import opened PhysicalMemory
  import opened PageTables
  import opened PagingRuns
  import opened PageRanges
  import opened BitmapFrames
  import opened HeapBlocks
  import opened HeapRuns
  import opened HeapNodes
  import opened HeapMemory

  /** With frame 48 the lowest free one, a heap that grows by a page grows into the bitmap. */
  lemma GrowthIntoBitmap(v: View, w: View, dir: nat, lo: nat, hi: nat, phys: uint32, limit: nat)
    requires Separate(v, dir) && Backed(v, dir, lo, hi) && hi < 0x1_0000_0000 && v.pd[hi / 4096 / 1024] != 0
    requires FirstFit(v.used, limit, 48, 1) && PagesTaken(v, w, hi, phys, 1, limit)
    ensures |w.leaf| == PAGES && w.leaf[hi / 4096] == 48 * 4096 + 7
    ensures !Backed(w, dir, lo, hi + 4096)
  {
    hide Owned, Separate, RangeStep, FirstFit, AllPresent, PagingOffBitmap;
    IsFree(v.used, limit, BITMAP_START);
    assert hi / 4096 < (hi + 4096) / 4096;
    FirstFitUnique(v.used, limit, BITMAP_START, phys / 4096, 1);
    var m := WithBlocks(v, BITMAP_START, 1);
    NoneMade(m, w, hi, BITMAP_START, 1, limit);
    FirstPage(m, w, hi / 4096, BITMAP_START, limit);
    NotOwned(w, dir, lo, hi + 4096, hi / 4096);
  }

  lemma IsFree(used: set<nat>, limit: nat, b: nat)
    requires FirstFit(used, limit, b, 1)
    ensures FreeRun(used, limit, b, 1) && HasFreeRun(used, limit, 1)
  {
  }

  lemma FirstPage(m: View, w: View, page: nat, frame: nat, limit: nat)
    requires page < PAGES && frame < PAGES && RangeStep(m, w, page, frame, 1, USER_PAGE, limit)
    requires w.pd == m.pd && |m.pd| == ENTRIES && m.pd[page / 1024] != 0
    ensures |w.leaf| == PAGES && w.leaf[page] == frame * 4096 + USER_PAGE
  {
    hide Roomy, Tabled;
    assert NewTables(m, w) == {};
  }

  /** The first word of the header written there, the size of a one-page block, frees blocks 0 and 1. */
  lemma HeaderFreesBlocks(mem: seq<Frame>, limit: nat)
    requires |mem| == PAGES && 2 <= limit <= 0x10_0000
    ensures PageBytes(1) - HEADER == 4076
    ensures var after := mem[48 := mem[48][0 := 4076]];
            {0, 1} !! UsedIn(after, limit) && FirstFit(UsedIn(after, limit), limit, 0, 1)
  {
    var after := mem[48 := mem[48][0 := 4076]];
    assert !Bit(4076, 0) && !Bit(4076, 1);
    assert FreeRun(UsedIn(after, limit), limit, 0, 1);
  }

  /** So the next allocation takes block 0, and marking it changes the size. */
  lemma MarkChangesSize()
    ensures Or(4076, Pow2(0)) == 4077
  {
    OrIsSum(4076, 1, 1);
  }

  /** And with its last size one more than it was, the list no longer tiles the heap. */
  lemma LastSizeChanged(nodes: Nodes, head: nat, end: nat, s: seq<Block>, nodes': Nodes)
    requires TiledBy(nodes, head, end, s) && |s| > 0 && s[|s| - 1].address in nodes
    requires var a := s[|s| - 1].address;
             && nodes[a].size + 1 < 0x1_0000_0000
             && nodes' == nodes[a := nodes[a].(size := nodes[a].size + 1)]
    ensures !IsTiled(nodes', head, end)
  {
    var k := |s| - 1;
    var a := s[k].address;
    SpellsParts(nodes, head, end, s, k);
    assert s[k + 1..] == [];
    SpellsFrame(nodes, nodes', head, s[..k], a, head, a);
    NotTiled(nodes', head, end, s[..k], a, a);
  }

  /** With a heap page's number as the lowest free frame behind the one taken for a new page, a table that this page
      needs takes the heap page. */
  lemma TableInHeap(v: View, dir: nat, lo: nat, hi: nat, s: nat, b: nat, limit: nat)
    requires Separate(v, dir) && Backed(v, dir, lo, hi) && hi / 4096 < PAGES && v.pd[hi / 4096 / 1024] == 0
    requires FirstFit(v.used, limit, s, 1) && FirstFit(v.used + Blocks(s, 1), limit, b, 1)
    requires s < PAGES && lo / 4096 <= b < hi / 4096
    ensures var w := TableMadeAt(WithBlocks(v, s, 1), hi / 4096, s * 4096 + USER_PAGE, USER_PAGE, b);
            && MapStep(WithBlocks(v, s, 1), w, hi / 4096, s * 4096 + USER_PAGE, USER_PAGE, true, limit)
            && !ClearOfTables(v, w, lo, hi + 4096) && !Backed(w, dir, lo, hi + 4096)
  {
    hide FirstFit, Separate, MapStep, AllPresent, PagingOffBitmap, ClearOfTables;
    var m, page := WithBlocks(v, s, 1), hi / 4096;
    assert Owned(v, dir, b);
    StaysSeparate(v, dir, s, 1);
    MakesTable(m, dir, limit, page, s * 4096 + USER_PAGE, USER_PAGE, b);
    MadeInHeap(v, m, dir, lo, hi, s * 4096 + USER_PAGE, b);
  }

  lemma StaysSeparate(v: View, dir: nat, s: nat, n: nat)
    requires Separate(v, dir)
    ensures Separate(WithBlocks(v, s, n), dir)
  {
  }

  lemma MadeInHeap(v: View, m: View, dir: nat, lo: nat, hi: nat, entry: uint32, b: nat)
    requires |v.pd| == ENTRIES && |v.leaf| == PAGES && m.pd == v.pd && m.leaf == v.leaf
    requires b < PAGES && hi / 4096 < PAGES && lo / 4096 <= b < hi / 4096 && v.pd[hi / 4096 / 1024] == 0
    ensures var w := TableMadeAt(m, hi / 4096, entry, USER_PAGE, b);
            !ClearOfTables(v, w, lo, hi + 4096) && !Backed(w, dir, lo, hi + 4096)
  {
    hide PagingOffBitmap, AllPresent, Bitmap;
    var w, slot := TableMadeAt(m, hi / 4096, entry, USER_PAGE, b), hi / 4096 / 1024;
    assert IsNew(v, w, slot) && w.pd[slot] / 4096 == b;
    assert b in NewTables(v, w) && hi / 4096 < (hi + 4096) / 4096;
    assert w.leaf[b] / 4096 == b && !Owned(w, dir, b);
  }

  /** A heap of 4 MB at 4 MB, in frames from 8 MB on, on a machine whose first 4 MB are all in use. */
  function FullLowMemory(): View {
    View(seq(ENTRIES, i => if i == 0 then 2 * 4096 + 3 else if i == 1 then 3 * 4096 + 7 else 0),
         seq(PAGES, p => if 1024 <= p < 2048 then (p + 1024) * 4096 + 7 else 0),
         Blocks(0, 1024) + Blocks(2048, 1024))
  }

  /** The next page of that heap takes frame 1024, and its table frame 1025, which is the number of a heap page. */
  lemma TableInHeapExample()
    ensures var v := FullLowMemory();
            && Separate(v, 1) && Backed(v, 1, 0x40_0000, 0x80_0000) && Bitmap() <= v.used
            && v.pd[0x80_0000 / 4096 / 1024] == 0
            && FirstFit(v.used, 0x2000, 1024, 1) && FirstFit(v.used + Blocks(1024, 1), 0x2000, 1025, 1)
  {
    hide Separate, Backed, FirstFit, FullLowMemory;
    FullIsSeparate();
    FullIsBacked();
    FullUsed();
    var used := FullLowMemory().used;
    LowestFreeIs(used, 0x2000, 1024);
    LowestFreeIs(used + Blocks(1024, 1), 0x2000, 1025);
  }

  lemma FullUsed()
    ensures var v := FullLowMemory();
            v.used == Blocks(0, 1024) + Blocks(2048, 1024) && Bitmap() <= v.used && |v.pd| == ENTRIES && v.pd[2] == 0
  {
  }

  lemma FullIsSeparate()
    ensures Separate(FullLowMemory(), 1)
  {
    assert {0, 1, 2, 3} <= FullLowMemory().used;
  }

  lemma FullIsBacked()
    ensures Backed(FullLowMemory(), 1, 0x40_0000, 0x80_0000)
  {
    hide Bitmap, IsPresent;
    var v := FullLowMemory();
    PresentIsOdd(2 * 4096 + 3);
    PresentIsOdd(3 * 4096 + 7);
    LowNotBitmap();
    forall p: nat | 1024 <= p < 2048
      ensures Owned(v, 1, p) && v.leaf[p] / 4096 == p + 1024
    {
      LowNotBitmapAbove(p + 1024);
    }
  }

  lemma LowNotBitmap()
    ensures {1, 2, 3} !! Bitmap()
  {
  }

  lemma LowNotBitmapAbove(f: nat)
    ensures f >= BITMAP_START + BITMAP_FRAMES ==> f !in Bitmap()
  {
  }
}
