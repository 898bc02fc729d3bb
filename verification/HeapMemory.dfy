/** The memory behind the heap's pages: when the headers written there stay where they were written. */
module HeapMemory {
  import opened Bitwise
  import opened PhysicalMemory
  import opened PageTables
  import opened PagingRuns
  import opened PageRanges
  import opened BitmapFrames

  /** PTE_PRESENT | PTE_WRITABLE | PTE_USER */
  const USER_PAGE: uint32 := 7

  /** The state once n blocks from s on are taken. */
  ghost function WithBlocks(v: View, s: nat, n: nat): View {
    v.(used := v.used + Blocks(s, n))
  }

  /** n pages from virt on were mapped, in order, to the first n frames in a row that were free before; when there were
      none, the address 0 is taken for theirs, and the pages are mapped to the frames from 0 on. */
  ghost predicate PagesTaken(v: View, w: View, virt: uint32, phys: uint32, n: nat, limit: nat) {
    virt / 4096 + n <= PAGES ==>
      if n > 0 && HasFreeRun(v.used, limit, n) then
        && phys % 4096 == 0 && FirstFit(v.used, limit, phys / 4096, n)
        && phys / 4096 + n <= PAGES && Blocks(phys / 4096, n) !! v.used
        && RangeStep(WithBlocks(v, phys / 4096, n), w, virt / 4096, phys / 4096, n, USER_PAGE, limit)
      else phys == 0 && RangeStep(v, w, virt / 4096, 0, n, USER_PAGE, limit)
  }

  /** Page p leads to a frame that is in use and holds neither a table nor the directory, nor part of the bitmap, nor
      is frame 0. */
  predicate Owned(v: View, dir: nat, p: nat)
    requires |v.pd| == ENTRIES && |v.leaf| == PAGES && p < PAGES
  {
    && v.pd[p / 1024] != 0 && v.leaf[p] % 4096 == USER_PAGE
    && var f := v.leaf[p] / 4096;
       && f in v.used && f != 0 && f != dir && f !in Bitmap()
       && forall i | 0 <= i < ENTRIES && v.pd[i] != 0 :: v.pd[i] / 4096 != f
  }

  /** Every page from lo to hi has a frame of its own, and paging keeps off the bitmap. */
  predicate Backed(v: View, dir: nat, lo: nat, hi: nat) {
    && |v.pd| == ENTRIES && |v.leaf| == PAGES && lo % 4096 == hi % 4096 == 0 && lo <= hi <= 0x1_0000_0000
    && AllPresent(v) && PagingOffBitmap(v, dir)
    && (forall p: nat | lo / 4096 <= p < hi / 4096 :: Owned(v, dir, p))
    && (forall p: nat, q: nat | lo / 4096 <= p < q < hi / 4096 :: v.leaf[p] / 4096 != v.leaf[q] / 4096)
  }

  /** An owned page stays owned while it is not remapped and only free frames become tables. */
  lemma StaysOwned(v: View, w: View, dir: nat, p: nat)
    requires Grows(v, w, USER_PAGE) && p < PAGES && Owned(v, dir, p) && w.leaf[p] == v.leaf[p]
    ensures Owned(w, dir, p)
  {
    forall i: nat | i < ENTRIES && w.pd[i] != 0
      ensures w.pd[i] / 4096 != v.leaf[p] / 4096
    {
      assert v.pd[i] == 0 ==> IsNew(v, w, i);
    }
  }

  /** A page mapped to a frame that has just been taken is owned. */
  lemma BecomesOwned(v: View, m: View, w: View, dir: nat, p: nat, f: nat)
    requires Separate(v, dir) && f !in v.used && f in m.used && m.pd == v.pd && Grows(m, w, USER_PAGE) && f !in Bitmap()
    requires p < PAGES && w.pd[p / 1024] != 0 && w.leaf[p] == f * 4096 + USER_PAGE
    ensures Owned(w, dir, p)
  {
    forall i: nat | i < ENTRIES && w.pd[i] != 0
      ensures w.pd[i] / 4096 != f
    {
      assert m.pd[i] == 0 ==> IsNew(m, w, i);
    }
  }

  /** With frames of their own and tables, the new pages are backed too. */
  lemma GrownBacked(v: View, m: View, w: View, dir: nat, lo: nat, hi: nat, frame: nat, n: nat, limit: nat)
    requires Separate(v, dir) && Backed(v, dir, lo, hi) && hi / 4096 + n <= PAGES && frame + n <= PAGES
    requires m == WithBlocks(v, frame, n) && Blocks(frame, n) !! v.used && Blocks(frame, n) !! Bitmap()
    requires RangeStep(m, w, hi / 4096, frame, n, USER_PAGE, limit)
    requires ClearOfTables(m, w, lo, hi + n * 4096) && PagingOffBitmap(w, dir)
    requires forall p: nat | hi / 4096 <= p < hi / 4096 + n :: w.pd[p / 1024] != 0
    ensures Backed(w, dir, lo, hi + n * 4096)
  {
    hide Owned, IsPresent, Separate, Full, NewTables, Grows, Roomy, Tabled, Bitmap, PagingOffBitmap;
    var page := hi / 4096;
    GrowsSizes(m, w);
    GrowsPresent(m, w, USER_PAGE);
    forall p: nat | lo / 4096 <= p < page
      ensures Owned(w, dir, p) && w.leaf[p] == v.leaf[p] && v.leaf[p] / 4096 in v.used
    {
      StillOwned(v, m, dir, p);
      StaysOwned(m, w, dir, p);
    }
    forall p: nat | page <= p < page + n
      ensures Owned(w, dir, p) && w.leaf[p] == (p - page + frame) * 4096 + USER_PAGE
    {
      assert !LeftOut(w, p, limit);
      assert p - page + frame in Blocks(frame, n);
      BecomesOwned(v, m, w, dir, p, p - page + frame);
    }
  }

  lemma GrowsSizes(v: View, w: View)
    requires Grows(v, w, USER_PAGE)
    ensures |v.pd| == |w.pd| == ENTRIES && |v.leaf| == |w.leaf| == PAGES
  {
  }

  lemma StillOwned(v: View, m: View, dir: nat, p: nat)
    requires |v.pd| == ENTRIES && |v.leaf| == PAGES && p < PAGES && Owned(v, dir, p)
    requires m.pd == v.pd && m.leaf == v.leaf && v.used <= m.used
    ensures Owned(m, dir, p) && v.leaf[p] / 4096 in v.used
  {
  }

  /** No table made on the way is put in a frame whose own address belongs to the heap. */
  ghost predicate ClearOfTables(v: View, w: View, lo: nat, hi: nat) {
    |v.pd| == |w.pd| == ENTRIES && forall p: nat | lo / 4096 <= p < hi / 4096 :: p !in NewTables(v, w)
  }

  /** The first n free frames in a row, and none of them is the bitmap's. */
  ghost predicate GoodFit(used: set<nat>, limit: nat, n: nat) {
    exists s: nat :: FirstFit(used, limit, s, n) && Blocks(s, n) !! Bitmap()
  }

  /** For every table that n pages from hi on need, a free frame lies below the heap, off the bitmap, in memory whose
      own pages have tables. */
  ghost predicate Room(m: View, limit: nat, lo: nat, hi: nat, n: nat)
    requires hi / 4096 + n <= PAGES
  {
    exists b: nat :: b * 4096 <= lo && Roomy(m, hi / 4096, n, b, limit) && FreeBelow(m.used, b) !! Bitmap()
  }

  /** And so it is once the frames for the pages themselves are taken. */
  ghost predicate RoomForTables(v: View, limit: nat, lo: nat, hi: nat, n: nat)
    requires hi / 4096 + n <= PAGES
  {
    && (forall s: nat | FirstFit(v.used, limit, s, n) :: Room(WithBlocks(v, s, n), limit, lo, hi, n))
    && (!HasFreeRun(v.used, limit, n) ==> Room(v, limit, lo, hi, n))
  }

  /** Growing the heap by n pages, with room for tables, keeps it backed iff there is a good fit for the pages. */
  ghost predicate GrowthRule(v: View, w: View, dir: nat, lo: nat, hi: nat, n: nat, limit: nat) {
    Backed(v, dir, lo, hi) && n > 0 && hi / 4096 + n <= PAGES && RoomForTables(v, limit, lo, hi, n) ==>
      (Backed(w, dir, lo, hi + n * 4096) <==> GoodFit(v.used, limit, n))
  }

  /** Without such room: iff besides every new page got a table; provided that none of the tables made on the way is in
      the bitmap or in a frame whose own address belongs to the heap. */
  lemma GrowthBacked(v: View, w: View, dir: nat, lo: nat, hi: nat, phys: uint32, n: nat, limit: nat)
    requires Separate(v, dir) && hi < 0x1_0000_0000 && PagesTaken(v, w, hi, phys, n, limit)
    requires Backed(v, dir, lo, hi) && n > 0 && hi / 4096 + n <= PAGES
    requires ClearOfTables(v, w, lo, hi + n * 4096) && PagingOffBitmap(w, dir)
    ensures Backed(w, dir, lo, hi + n * 4096) <==>
              GoodFit(v.used, limit, n) && forall p: nat | hi / 4096 <= p < hi / 4096 + n :: w.pd[p / 1024] != 0
  {
    hide AllPresent, Full, HasFreeRun, Blocks, Owned, Separate, FirstFit, Backed, RangeStep, PagingOffBitmap, Bitmap;
    if n > 0 && HasFreeRun(v.used, limit, n) {
      FitIs(v.used, limit, phys / 4096, n);
      GrowthWithFrames(v, w, dir, lo, hi, phys / 4096, n, limit);
    } else {
      NoFit(v.used, limit, n);
      GrowthWithout(v, w, dir, lo, hi, n, limit);
    }
  }

  lemma FitIs(used: set<nat>, limit: nat, s: nat, n: nat)
    requires FirstFit(used, limit, s, n)
    ensures GoodFit(used, limit, n) <==> Blocks(s, n) !! Bitmap()
  {
    hide Blocks, Bitmap, FirstFit;
    if GoodFit(used, limit, n) {
      var t: nat :| FirstFit(used, limit, t, n) && Blocks(t, n) !! Bitmap();
      FirstFitUnique(used, limit, s, t, n);
    }
  }

  lemma NoFit(used: set<nat>, limit: nat, n: nat)
    requires !HasFreeRun(used, limit, n)
    ensures !GoodFit(used, limit, n)
  {
  }

  lemma GrowthWithFrames(v: View, w: View, dir: nat, lo: nat, hi: nat, frame: nat, n: nat, limit: nat)
    requires Separate(v, dir) && Backed(v, dir, lo, hi) && n > 0 && hi / 4096 + n <= PAGES && frame + n <= PAGES
    requires Blocks(frame, n) !! v.used
    requires RangeStep(WithBlocks(v, frame, n), w, hi / 4096, frame, n, USER_PAGE, limit)
    requires ClearOfTables(v, w, lo, hi + n * 4096) && PagingOffBitmap(w, dir)
    ensures Backed(w, dir, lo, hi + n * 4096) <==>
              Blocks(frame, n) !! Bitmap() && forall p: nat | hi / 4096 <= p < hi / 4096 + n :: w.pd[p / 1024] != 0
  {
    hide AllPresent, Separate, Full, Owned, PagingOffBitmap, Bitmap, Tabled, Roomy, NewTables;
    var page, m := hi / 4096, WithBlocks(v, frame, n);
    SameNewTables(v, m, w);
    if p: nat :| page <= p < page + n && w.pd[p / 1024] == 0 {
      NotOwned(w, dir, lo, hi + n * 4096, p);
    } else if f :| f in Blocks(frame, n) && f in Bitmap() {
      var p := f - frame + page;
      assert w.leaf[p] == f * 4096 + USER_PAGE;
      NotOwned(w, dir, lo, hi + n * 4096, p);
    } else {
      GrownBacked(v, m, w, dir, lo, hi, frame, n, limit);
    }
  }

  lemma SameNewTables(v: View, m: View, w: View)
    requires |v.pd| == |w.pd| == ENTRIES && m.pd == v.pd
    ensures NewTables(m, w) == NewTables(v, w)
  {
  }

  lemma GrowthWithout(v: View, w: View, dir: nat, lo: nat, hi: nat, n: nat, limit: nat)
    requires Backed(v, dir, lo, hi) && n > 0 && hi / 4096 + n <= PAGES && ClearOfTables(v, w, lo, hi + n * 4096)
    requires RangeStep(v, w, hi / 4096, 0, n, USER_PAGE, limit)
    ensures !Backed(w, dir, lo, hi + n * 4096)
  {
    hide AllPresent, Full, Owned, NewTables, Roomy, Tabled, PagingOffBitmap;
    var page := hi / 4096;
    assert (w.leaf[page] == USER_PAGE && w.pd[page / 1024] != 0) || LeftOut(w, page, limit);
    NotOwned(w, dir, lo, hi + n * 4096, page);
  }

  /** What room there is makes all tables, clear of the heap and off the bitmap. */
  lemma RoomSuffices(m: View, w: View, dir: nat, lo: nat, hi: nat, frame: nat, n: nat, limit: nat)
    requires hi / 4096 + n <= PAGES && frame + n <= PAGES && PagingOffBitmap(m, dir) && n > 0
    requires RangeStep(m, w, hi / 4096, frame, n, USER_PAGE, limit) && Room(m, limit, lo, hi, n)
    ensures ClearOfTables(m, w, lo, hi + n * 4096) && PagingOffBitmap(w, dir)
    ensures |w.pd| == ENTRIES && forall p: nat | hi / 4096 <= p < hi / 4096 + n :: w.pd[p / 1024] != 0
  {
    hide Full, Roomy, Bitmap, FreeBelow, Missing;
    var b: nat :| b * 4096 <= lo && Roomy(m, hi / 4096, n, b, limit) && FreeBelow(m.used, b) !! Bitmap();
    assert Tabled(m, w, hi / 4096, n, b);
    forall i: nat | IsNew(m, w, i)
      ensures w.pd[i] / 4096 < b && w.pd[i] / 4096 !in Bitmap()
    {
      BelowAndFree(m.used, b, w.pd[i] / 4096);
    }
    forall i | 0 <= i < ENTRIES && w.pd[i] != 0
      ensures w.pd[i] / 4096 !in Bitmap()
    {
      assert m.pd[i] == 0 ==> IsNew(m, w, i);
    }
  }

  lemma BelowAndFree(used: set<nat>, b: nat, f: nat)
    ensures f < b && f !in used ==> f in FreeBelow(used, b)
  {
  }

  /** The mappings of the grow path follow the rule. */
  lemma GrowthFollowsRule(v: View, w: View, dir: nat, lo: nat, hi: nat, phys: uint32, n: nat, limit: nat)
    requires Separate(v, dir) && hi < 0x1_0000_0000 && PagesTaken(v, w, hi, phys, n, limit)
    ensures GrowthRule(v, w, dir, lo, hi, n, limit)
  {
    hide AllPresent, Full, HasFreeRun, Blocks, Owned, Separate, FirstFit, RangeStep, PagingOffBitmap, Bitmap, Room;
    hide NewTables;
    if Backed(v, dir, lo, hi) && n > 0 && hi / 4096 + n <= PAGES && RoomForTables(v, limit, lo, hi, n) {
      var m, frame := v, 0;
      if HasFreeRun(v.used, limit, n) {
        m, frame := WithBlocks(v, phys / 4096, n), phys / 4096;
      }
      SameOffBitmap(v, m, dir);
      RoomSuffices(m, w, dir, lo, hi, frame, n, limit);
      SameNewTables(v, m, w);
      GrowthBacked(v, w, dir, lo, hi, phys, n, limit);
    }
  }

  lemma SameOffBitmap(v: View, m: View, dir: nat)
    requires m.pd == v.pd
    ensures PagingOffBitmap(m, dir) <==> PagingOffBitmap(v, dir)
  {
  }

  /** Supplies for r pages more: the bitmap is safe, r frames in a row are free, and the pages have tables. */
  ghost predicate Supply(v: View, limit: nat, hi: nat, r: nat) {
    && |v.pd| == ENTRIES && Bitmap() <= v.used && HasFreeRun(v.used, limit, r) && hi / 4096 + r <= PAGES
    && forall p: nat | hi / 4096 <= p < hi / 4096 + r :: v.pd[p / 1024] != 0
  }

  /** Growing by n of them keeps the heap backed and leaves supplies for the rest. */
  ghost predicate SupplyRule(v: View, w: View, dir: nat, lo: nat, hi: nat, n: nat, limit: nat) {
    Backed(v, dir, lo, hi) && n > 0 ==>
      forall r: nat | n <= r && Supply(v, limit, hi, r) ::
        Backed(w, dir, lo, hi + n * 4096) && Supply(w, limit, hi + n * 4096, r - n)
  }

  /** Taking the first fit out of used leaves the rest of a longer run. */
  lemma RunLeft(used: set<nat>, limit: nat, s: nat, n: nat, r: nat)
    requires HasFreeRun(used, limit, r) && n <= r && FirstFit(used, limit, s, n)
    ensures HasFreeRun(used + Blocks(s, n), limit, r - n)
  {
    var t: nat :| FreeRun(used, limit, t, r);
    assert FreeRun(used, limit, t, n);
    assert FreeRun(used + Blocks(s, n), limit, t + n, r - n);
  }

  /** Without missing tables none are made. */
  lemma NoneMade(m: View, w: View, hi: nat, frame: nat, n: nat, limit: nat)
    requires hi / 4096 + n <= PAGES && frame + n <= PAGES && |m.pd| == ENTRIES
    requires RangeStep(m, w, hi / 4096, frame, n, USER_PAGE, limit)
    requires forall p: nat | hi / 4096 <= p < hi / 4096 + n :: m.pd[p / 1024] != 0
    ensures Roomy(m, hi / 4096, n, 0, limit) && w.pd == m.pd && w.used == m.used
  {
    hide Full, FreeBelow;
    var page := hi / 4096;
    forall i: nat | n > 0 && page / 1024 <= i && i * 1024 < page + n
      ensures m.pd[i] != 0
    {
      var p := if i == page / 1024 then page else i * 1024;
      assert page <= p < page + n && p / 1024 == i;
    }
    assert n > 0 ==> Missing(m.pd, page, n) == {};
    assert Roomy(m, page, n, 0, limit);
    assert NewTables(m, w) == {};
  }

  lemma SupplyLasts(v: View, w: View, dir: nat, lo: nat, hi: nat, phys: uint32, n: nat, r: nat, limit: nat)
    requires Separate(v, dir) && Backed(v, dir, lo, hi) && hi < 0x1_0000_0000
    requires PagesTaken(v, w, hi, phys, n, limit) && 0 < n <= r && Supply(v, limit, hi, r)
    ensures Backed(w, dir, lo, hi + n * 4096) && Supply(w, limit, hi + n * 4096, r - n)
  {
    hide AllPresent, Full, FirstFit, HasFreeRun, Owned, Separate, RangeStep, PagingOffBitmap, Bitmap, Roomy, NewTables;
    hide FreeBelow;
    ShorterRun(v.used, limit, n, r);
    var frame := phys / 4096;
    var m := WithBlocks(v, frame, n);
    NoneMade(m, w, hi, frame, n, limit);
    assert Room(m, limit, lo, hi, n) by {
      NothingBelow(m.used);
    }
    SameOffBitmap(v, m, dir);
    RoomSuffices(m, w, dir, lo, hi, frame, n, limit);
    SameNewTables(v, m, w);
    GrowthWithFrames(v, w, dir, lo, hi, frame, n, limit);
    RunLeft(v.used, limit, frame, n, r);
  }

  lemma NothingBelow(used: set<nat>)
    ensures FreeBelow(used, 0) == {}
  {
  }

  lemma SuppliesFollowRule(v: View, w: View, dir: nat, lo: nat, hi: nat, phys: uint32, n: nat, limit: nat)
    requires Separate(v, dir) && hi < 0x1_0000_0000 && PagesTaken(v, w, hi, phys, n, limit)
    ensures SupplyRule(v, w, dir, lo, hi, n, limit)
  {
    hide Separate, PagesTaken, Backed, Supply;
    if Backed(v, dir, lo, hi) && n > 0 {
      forall r: nat | n <= r && Supply(v, limit, hi, r)
        ensures Backed(w, dir, lo, hi + n * 4096) && Supply(w, limit, hi + n * 4096, r - n)
      {
        SupplyLasts(v, w, dir, lo, hi, phys, n, r, limit);
      }
    }
  }

  /** What the state before an operation foretells. The operation takes n pages more, moves the end of the heap from hi
      to hi', and keeps the tiling if possible. Without new pages it survives iff it is possible; with room for tables,
      iff besides the new pages have a good fit; and supplies are enough in any case, and last. */
  ghost predicate Foretold(v: View, w: View, limit: nat, lo: nat, hi: nat, hi': nat, n: nat, possible: bool,
                           intact: bool)
  {
    && (n == 0 ==> (intact <==> possible))
    && (n > 0 && hi / 4096 + n <= PAGES && RoomForTables(v, limit, lo, hi, n) ==>
          (intact <==> possible && GoodFit(v.used, limit, n)))
    && (forall r: nat | n <= r && possible && Supply(v, limit, hi, r) :: intact && Supply(w, limit, hi', r - n))
  }

  lemma GrowthForetold(v: View, w: View, dir: nat, limit: nat, lo: nat, hi: nat, hi': nat, n: nat, possible: bool,
                       intact: bool)
    requires Backed(v, dir, lo, hi)
    requires GrowthRule(v, w, dir, lo, hi, n, limit) && SupplyRule(v, w, dir, lo, hi, n, limit)
    requires possible ==> n > 0 && hi' == hi + n * 4096
    requires intact <==> possible && Backed(w, dir, lo, hi')
    ensures Foretold(v, w, limit, lo, hi, hi', n, possible, intact)
  {
    hide Backed, RoomForTables, GoodFit, Supply;
  }

  /** An operation that takes no pages and leaves the tables alone. */
  lemma NoGrowthForetold(v: View, limit: nat, lo: nat, hi: nat, hi': nat, possible: bool, intact: bool)
    requires intact == possible && (intact ==> hi' == hi)
    ensures Foretold(v, v, limit, lo, hi, hi', 0, possible, intact)
  {
  }

  lemma NotOwned(w: View, dir: nat, lo: nat, hi: nat, p: nat)
    requires |w.pd| == ENTRIES && |w.leaf| == PAGES && lo / 4096 <= p < hi / 4096 && p < PAGES
    requires w.pd[p / 1024] == 0 || w.leaf[p] / 4096 == 0 || w.leaf[p] / 4096 in Bitmap()
    ensures !Backed(w, dir, lo, hi)
  {
    assert !Owned(w, dir, p);
  }

  /** A table made in a frame whose own address is a heap page takes that page from the heap, unless the page is the
      one being mapped or frames have run out. */
  lemma TableTakesPage(v: View, w: View, dir: nat, lo: nat, hi: nat, page: nat, entry: uint32, flags: uint32,
                       ok: bool, limit: nat, t: nat)
    requires page < PAGES && MapStep(v, w, page, entry, flags, ok, limit) && flags < 4096 && !Full(w.used, limit)
    requires |v.pd| == |w.pd| == ENTRIES && t in NewTables(v, w) && t != page && lo / 4096 <= t < hi / 4096
    ensures !Backed(w, dir, lo, hi)
  {
    hide Full;
    var i: nat :| i < ENTRIES && IsNew(v, w, i) && w.pd[i] / 4096 == t;
    assert w.leaf[t] / 4096 == t;
    if hi <= 0x1_0000_0000 {
      assert !Owned(w, dir, t);
    }
  }

  /** A header written to a page that was left out never gets there: the page-fault handler takes a frame and maps
      it, both of which fail and change nothing, and the write is tried again. */
  lemma FaultNeverResolved(v: View, a: View, w: View, p: nat, phys: uint32, ok: bool, limit: nat)
    requires |v.pd| == ENTRIES && p < PAGES && LeftOut(v, p, limit)
    requires AllocStep(v, a, 1, limit) && MapStep(a, w, p, Entry(phys, USER_PAGE), USER_PAGE, ok, limit)
    ensures w == v && !ok
  {
  }

  /** A heap with an address whose page has no table is not backed. */
  lemma NoTableNotBacked(v: View, dir: nat, a: nat, lo: nat, hi: nat)
    requires |v.pd| == ENTRIES && a / 4096 / 1024 < ENTRIES && v.pd[a / 4096 / 1024] == 0 && lo <= a < hi
    ensures !Backed(v, dir, lo, hi)
  {
    var p := a / 4096;
    assert Backed(v, dir, lo, hi) ==> lo / 4096 <= p < hi / 4096 && Owned(v, dir, p);
  }
}
