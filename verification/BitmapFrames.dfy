/** The frames that hold the bitmap itself, and what becomes of them when they are not reserved. */
module BitmapFrames {
  import opened Bitwise
  import opened PhysicalMemory
  import opened PageTables
  import opened PagingRuns

  /** The 32 frames from MEMMAP_AREA on. */
  function Bitmap(): set<nat> { Blocks(BITMAP_START, BITMAP_FRAMES) }

  /** None of the bitmap's frames is the directory or a table. */
  predicate PagingOffBitmap(v: View, dir: nat) {
    dir !in Bitmap() && forall i | 0 <= i < |v.pd| && v.pd[i] != 0 :: v.pd[i] / 4096 !in Bitmap()
  }

  /** And they are in use. */
  ghost predicate OffBitmap(v: View, dir: nat) {
    Bitmap() <= v.used && PagingOffBitmap(v, dir)
  }

  /** From such a state no run hands out a frame of the bitmap or makes one a table. */
  lemma StaysOffBitmap(trace: seq<View>, ops: seq<Op>, dir: nat, limit: nat, j: nat)
    requires Run(trace, ops, limit) && Separate(trace[0], dir) && OffBitmap(trace[0], dir) && j < |trace|
    ensures OffBitmap(trace[j], dir) && (trace[j].used - trace[0].used) !! Bitmap()
  {
    hide Separate, Bitmap, Run;
    TablesNeverMove(trace, ops, dir, limit, 0, j);
    forall i | 0 <= i < ENTRIES && trace[j].pd[i] != 0
      ensures trace[j].pd[i] / 4096 !in Bitmap()
    {
      NewOrUsed(trace, ops, dir, limit, 0, j, i);
    }
  }

  lemma RunPrefixed(v: View, op: Op, trace: seq<View>, ops: seq<Op>, limit: nat)
    requires Run(trace, ops, limit) && Step(v, op, trace[0], limit)
    ensures Run([v] + trace, [op] + ops, limit)
  {
    hide Step;
  }

  /** Allocating single frames reaches every free one. */
  lemma {:induction false} AllocationsReach(v: View, limit: nat, b: nat) returns (trace: seq<View>, ops: seq<Op>)
    requires b !in v.used && b < limit
    ensures Run(trace, ops, limit) && trace[0] == v
    ensures var w := trace[|ops|]; w.pd == v.pd && w.leaf == v.leaf && v.used <= w.used && FirstFit(w.used, limit, b, 1)
    decreases Blocks(0, b) - v.used
  {
    if s: nat :| s < b && FirstFit(v.used, limit, s, 1) {
      var w := v.(used := v.used + Blocks(s, 1));
      assert s in Blocks(0, b) && s !in v.used && s in w.used;
      assert Step(v, AllocOp(1), w, limit) by {
        assert FreeRun(v.used, limit, s, 1);
      }
      trace, ops := AllocationsReach(w, limit, b);
      RunPrefixed(v, AllocOp(1), trace, ops, limit);
      trace, ops := [v] + trace, [AllocOp(1)] + ops;
    } else {
      trace, ops := [v], [];
      LowestIsFirst(v.used, limit, b);
    }
  }

  lemma {:induction false} LowestFree(used: set<nat>, limit: nat, t: nat) returns (s: nat)
    requires FreeRun(used, limit, t, 1)
    ensures s <= t && FirstFit(used, limit, s, 1)
  {
    if u: nat :| u < t && FreeRun(used, limit, u, 1) {
      s := LowestFree(used, limit, u);
    } else {
      s := t;
    }
  }

  lemma LowestIsFirst(used: set<nat>, limit: nat, b: nat)
    requires b !in used && b < limit && forall s: nat | s < b :: !FirstFit(used, limit, s, 1)
    ensures FirstFit(used, limit, b, 1)
  {
    assert FreeRun(used, limit, b, 1);
    forall t: nat | t < b
      ensures !FreeRun(used, limit, t, 1)
    {
      if FreeRun(used, limit, t, 1) {
        var s := LowestFree(used, limit, t);
      }
    }
  }

  /** A frame of the bitmap can still be handed out iff one is free. */
  lemma HandedOutIffFree(v: View, limit: nat)
    requires BITMAP_START + BITMAP_FRAMES <= limit
    ensures !(Bitmap() <= v.used) <==>
              exists trace: seq<View>, ops: seq<Op> ::
                Run(trace, ops, limit) && trace[0] == v && !((trace[|ops|].used - v.used) !! Bitmap())
  {
    if !(Bitmap() <= v.used) {
      var b :| b in Bitmap() && b !in v.used;
      var trace, ops := AllocationsReach(v, limit, b);
      var w := trace[|ops|];
      var x := w.(used := w.used + Blocks(b, 1));
      assert Step(w, AllocOp(1), x, limit) by {
        assert FreeRun(w.used, limit, b, 1);
      }
      RunExtended(trace, ops, AllocOp(1), x, limit);
      assert b in x.used - v.used;
      assert (trace + [x])[|ops + [AllocOp(1)]|] == x;
    }
  }

  lemma RunExtended(trace: seq<View>, ops: seq<Op>, op: Op, w: View, limit: nat)
    requires Run(trace, ops, limit) && Step(trace[|ops|], op, w, limit)
    ensures Run(trace + [w], ops + [op], limit)
  {
    hide Step;
  }

  lemma IsMapOp(w: View, x: View, slot: nat, limit: nat)
    requires slot < ENTRIES && MapStep(w, x, slot * 1024, Entry(0, 7), 7, true, limit)
    ensures Step(w, MapOp(0, slot * 0x40_0000, 7), x, limit)
  {
    assert slot * 0x40_0000 / 4096 == slot * 1024;
  }

  /** So with frames of the bitmap free, some run makes one of them a page table, in a kernel that has a table for
      the lowest 4 MB and an empty slot. */
  lemma BitmapBecomesTable(v: View, dir: nat, limit: nat, slot: nat, b: nat)
    returns (trace: seq<View>, ops: seq<Op>)
    requires Separate(v, dir) && b in Bitmap() && b !in v.used && b < limit
    requires v.pd[0] != 0 && slot < ENTRIES && v.pd[slot] == 0
    ensures Run(trace, ops, limit) && trace[0] == v
    ensures |trace[|ops|].pd| == ENTRIES && trace[|ops|].pd[slot] / 4096 == b
  {
    hide Separate, Step;
    trace, ops := AllocationsReach(v, limit, b);
    TablesNeverMove(trace, ops, dir, limit, 0, |ops|);
    var w := trace[|ops|];
    var op, x := MapOp(0, slot * 0x40_0000, 7), TableMadeAt(w, slot * 1024, 7, 7, b);
    assert slot * 0x40_0000 / 4096 == slot * 1024 && slot * 1024 / 1024 == slot;
    MakesTable(w, dir, limit, slot * 1024, Entry(0, 7), 7, b);
    assert Step(w, op, x, limit) by {
      IsMapOp(w, x, slot, limit);
    }
    RunExtended(trace, ops, op, x, limit);
    trace, ops := trace + [x], ops + [op];
  }

  /** The used blocks as the bitmap's own frames say: word i of the bitmap is word i % 1024 of frame 48 + i / 1024. */
  ghost function UsedIn(mem: seq<Frame>, limit: nat): set<nat>
    requires |mem| == PAGES && limit <= 0x10_0000
  {
    set b: nat | b < limit && Bit(mem[BITMAP_START + b / 0x8000][b % 0x8000 / 32], b % 32)
  }

  /** The bitmap, 2^20 bits in 0x8000 words, fills frames 48 to 79. */
  lemma BitmapPlace(f: nat)
    ensures f in Bitmap() <==> 48 <= f < 80
    ensures f in Bitmap() <==> exists b: nat :: b < 0x10_0000 && 48 + b / 0x8000 == f
  {
    if 48 <= f < 80 {
      assert 48 + (f - 48) * 0x8000 / 0x8000 == f;
    }
  }

  /** With the words of an allocator's bitmap in those frames, one after another, that is what the allocator has in
      use. */
  lemma SameBitmap(pmm: FrameAllocator, mem: seq<Frame>)
    requires pmm.Valid() && pmm.memoryMap.Length == 0x8000 && |mem| == PAGES
    requires forall i: nat | i < 0x8000 :: mem[48 + i / 1024][i % 1024] == pmm.memoryMap[i]
    ensures UsedIn(mem, pmm.maxBlocks) == pmm.Used()
  {
    forall b: nat | b < pmm.maxBlocks
      ensures b in UsedIn(mem, pmm.maxBlocks) <==> pmm.IsUsed(b)
    {
      assert mem[48 + b / 32 / 1024][b / 32 % 1024] == pmm.memoryMap[b / 32];
      assert b / 32 / 1024 == b / 0x8000 && b / 32 % 1024 == b % 0x8000 / 32;
    }
  }

  /** A write to any other frame, a table's or the directory's for one, leaves the bitmap as it is. */
  lemma WriteOffBitmap(mem: seq<Frame>, limit: nat, t: nat, content: Frame)
    requires |mem| == PAGES && limit <= 0x10_0000 && t < PAGES && t !in Bitmap()
    ensures UsedIn(mem[t := content], limit) == UsedIn(mem, limit)
  {
    forall b: nat | b < limit
      ensures BITMAP_START + b / 0x8000 != t
    {
      assert BITMAP_START + b / 0x8000 in Bitmap();
    }
  }

  /** Clearing frame k of the bitmap for a new table frees 32768 blocks. */
  lemma ClearingFrees(mem: seq<Frame>, limit: nat, k: nat)
    requires |mem| == PAGES && limit <= 0x10_0000 && k < BITMAP_FRAMES
    ensures UsedIn(mem[BITMAP_START + k := ZeroFrame()], limit)
         == UsedIn(mem, limit) - Blocks(0x8000 * k, 0x8000)
  {
    var mem' := mem[BITMAP_START + k := ZeroFrame()];
    forall b: nat | b < limit
      ensures b in UsedIn(mem', limit) <==> b in UsedIn(mem, limit) && b !in Blocks(0x8000 * k, 0x8000)
    {
      NoBits(b % 32);
    }
  }

  /** With the directory or a table among them, a new table in frame 48 for one, separation is lost: a frame that
      paging uses counts as free. */
  lemma ClearingBreaksSeparation(mem: seq<Frame>, dir: nat, limit: nat, k: nat)
    requires |mem| == PAGES && dir < PAGES && limit <= 0x10_0000 && k < BITMAP_FRAMES && dir != BITMAP_START + k
    requires dir / 0x8000 == k || exists i :: 0 <= i < ENTRIES && mem[dir][i] != 0 && mem[dir][i] / 4096 / 0x8000 == k
    ensures var mem' := mem[BITMAP_START + k := ZeroFrame()]; !Separate(Read(mem', dir, UsedIn(mem', limit)), dir)
  {
    ClearingFrees(mem, limit, k);
    if !(dir / 0x8000 == k) {
      var i :| 0 <= i < ENTRIES && mem[dir][i] != 0 && mem[dir][i] / 4096 / 0x8000 == k;
      assert mem[dir][i] / 4096 in Blocks(0x8000 * k, 0x8000);
    } else {
      assert dir in Blocks(0x8000 * k, 0x8000);
    }
  }
}
