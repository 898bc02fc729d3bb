/** Paging with the bitmap where it is, in frames 48 to 79 of the memory that paging writes to. */
module LiteralPaging {
  import opened Bitwise
  import opened PhysicalMemory
  import opened PageTables
  import opened PagingRuns
  import opened BitmapFrames

  /** What the tables and the bitmap in memory say. */
  ghost function Seen(mem: seq<Frame>, dir: nat, limit: nat): View
    requires |mem| == PAGES && dir < PAGES && limit <= 0x10_0000
  {
    Read(mem, dir, UsedIn(mem, limit))
  }

  /** Marks one block as used. */
  function Mark(mem: seq<Frame>, b: nat): (r: seq<Frame>)
    requires |mem| == PAGES && b < 0x10_0000
    ensures |r| == PAGES && forall t | 0 <= t < PAGES && t != BITMAP_START + b / 0x8000 :: r[t] == mem[t]
  {
    var f, j := BITMAP_START + b / 0x8000, b % 0x8000 / 32;
    Pow2At32();
    Pow2Mono(b % 32, 32);
    OrBound(mem[f][j], Pow2(b % 32), 32);
    mem[f := mem[f][j := Or(mem[f][j], Pow2(b % 32))]]
  }

  lemma MarkUses(mem: seq<Frame>, limit: nat, b: nat)
    requires |mem| == PAGES && b < limit <= 0x10_0000
    ensures UsedIn(Mark(mem, b), limit) == UsedIn(mem, limit) + {b}
  {
    var f, j, r := BITMAP_START + b / 0x8000, b % 0x8000 / 32, Mark(mem, b);
    forall c: nat | c < limit
      ensures c in UsedIn(r, limit) <==> c in UsedIn(mem, limit) || c == b
    {
      hide Bit, Pow2, Or;
      OrBit(mem[f][j], Pow2(b % 32), c % 32);
      MaskBit(b % 32, c % 32);
      if c / 0x8000 == b / 0x8000 && c % 0x8000 / 32 == j && c % 32 == b % 32 {
        SamePlace(b, c);
      }
    }
  }

  /** Different blocks have different bits. */
  lemma SamePlace(b: nat, c: nat)
    requires c / 0x8000 == b / 0x8000 && c % 0x8000 / 32 == b % 0x8000 / 32 && c % 32 == b % 32
    ensures c == b
  {
    Place(b);
    Place(c);
  }

  lemma Place(b: nat)
    ensures b == 0x8000 * (b / 0x8000) + 32 * (b % 0x8000 / 32) + b % 32
  {
    var q, r := b / 0x8000, b % 0x8000;
    DivUnique(b, 32, 1024 * q + r / 32, r % 32);
  }

  function MarkAll(mem: seq<Frame>, s: nat, n: nat): (r: seq<Frame>)
    requires |mem| == PAGES && s + n <= 0x10_0000
    ensures |r| == PAGES && forall t | 0 <= t < PAGES && t !in Bitmap() :: r[t] == mem[t]
  {
    if n == 0 then mem
    else
      InBitmap(s + n - 1);
      Mark(MarkAll(mem, s, n - 1), s + n - 1)
  }

  lemma InBitmap(b: nat)
    requires b < 0x10_0000
    ensures BITMAP_START + b / 0x8000 in Bitmap()
  {
  }

  lemma {:induction false} MarkAllUses(mem: seq<Frame>, limit: nat, s: nat, n: nat)
    requires |mem| == PAGES && s + n <= limit <= 0x10_0000
    ensures UsedIn(MarkAll(mem, s, n), limit) == UsedIn(mem, limit) + Blocks(s, n)
  {
    hide UsedIn, Mark;
    if n > 0 {
      MarkAllUses(mem, limit, s, n - 1);
      MarkUses(MarkAll(mem, s, n - 1), limit, s + n - 1);
      BlocksStep(s, n - 1);
    }
  }

  lemma FitIffRun(used: set<nat>, limit: nat, n: nat)
    ensures HasFreeRun(used, limit, n) <==> exists s: nat :: FirstFit(used, limit, s, n)
  {
    if HasFreeRun(used, limit, n) {
      var t: nat :| FreeRun(used, limit, t, n);
      var s := LowestRun(used, limit, t, n);
    }
  }

  lemma {:induction false} LowestRun(used: set<nat>, limit: nat, t: nat, n: nat) returns (s: nat)
    requires FreeRun(used, limit, t, n)
    ensures s <= t && FirstFit(used, limit, s, n)
  {
    if u: nat :| u < t && FreeRun(used, limit, u, n) {
      s := LowestRun(used, limit, u, n);
    } else {
      s := t;
    }
  }

  ghost function TheFit(used: set<nat>, limit: nat, n: nat): (s: nat)
    requires HasFreeRun(used, limit, n)
    ensures FirstFit(used, limit, s, n) && s + n <= limit
  {
    FitIffRun(used, limit, n);
    var s: nat :| FirstFit(used, limit, s, n);
    s
  }

  /** `allocate_blocks`: marks the first fit, if there is one. */
  ghost function Allocate(mem: seq<Frame>, limit: nat, n: nat): (r: seq<Frame>)
    requires |mem| == PAGES && limit <= 0x10_0000
    ensures |r| == PAGES
  {
    var used := UsedIn(mem, limit);
    if n > 0 && HasFreeRun(used, limit, n) then MarkAll(mem, TheFit(used, limit, n), n) else mem
  }

  /** Taking the first fit does what the transition system says, and leaves the tables alone. */
  lemma AllocatesStep(mem: seq<Frame>, dir: nat, limit: nat, n: uint32)
    requires |mem| == PAGES && dir < PAGES && limit <= 0x10_0000 && PagingOffBitmap(Seen(mem, dir, limit), dir)
    ensures AllocStep(Seen(mem, dir, limit), Seen(Allocate(mem, limit, n), dir, limit), n, limit)
  {
    hide HasFreeRun, UsedIn, MarkAll, TheFit, FirstFit;
    var used := UsedIn(mem, limit);
    if n > 0 && HasFreeRun(used, limit, n) {
      var s := TheFit(used, limit, n);
      MarkAllUses(mem, limit, s, n);
      SameTables(mem, Allocate(mem, limit, n), dir, used);
    }
  }

  /** Memories that agree outside the bitmap have the same tables, if those are outside too. */
  lemma SameTables(mem: seq<Frame>, mem': seq<Frame>, dir: nat, used: set<nat>)
    requires |mem| == |mem'| == PAGES && dir < PAGES && PagingOffBitmap(Read(mem, dir, used), dir)
    requires forall t | 0 <= t < PAGES && t !in Bitmap() :: mem'[t] == mem[t]
    ensures Read(mem', dir, used) == Read(mem, dir, used)
  {
    hide Bitmap;
    forall p | 0 <= p < PAGES
      ensures LeafOf(mem', dir, p) == LeafOf(mem, dir, p)
    {
      assert mem[dir][p / 1024] != 0 ==> mem[dir][p / 1024] / 4096 !in Bitmap();
    }
  }

  datatype Outcome = Outcome(mem: seq<Frame>, ok: bool)

  /** `create_page_table`, for a slot and at most `depth` calls deep; zeroing takes the whole frame. */
  ghost function Create(mem: seq<Frame>, dir: nat, index: nat, flags: uint32, limit: nat, depth: nat): (r: Outcome)
    requires |mem| == PAGES && dir < PAGES && index < ENTRIES && flags < 4096 && limit <= 0x10_0000
    ensures |r.mem| == PAGES
    decreases depth, 0
  {
    if mem[dir][index] != 0 then Outcome(mem, true)
    else if HasFreeRun(UsedIn(mem, limit), limit, 1) then
      var s := TheFit(UsedIn(mem, limit), limit, 1);
      var m := Mark(mem, s);
      if s == 0 then Outcome(m, false)
      else
        var m' := m[dir := m[dir][index := s * 4096 + flags]][s := ZeroFrame()];
        if depth == 0 then Outcome(m', true)
        else Outcome(Map(m', dir, s, s * 4096 + flags, flags, limit, depth - 1).mem, true)
    else Outcome(mem, false)
  }

  /** `map_address`, for a page and the entry that it gets. */
  ghost function Map(mem: seq<Frame>, dir: nat, page: nat, entry: uint32, flags: uint32, limit: nat, depth: nat):
    (r: Outcome)
    requires |mem| == PAGES && dir < PAGES && page < PAGES && flags < 4096 && limit <= 0x10_0000
    ensures |r.mem| == PAGES
    decreases depth, 1
  {
    var c := Create(mem, dir, page / 1024, flags, limit, depth);
    if !c.ok then c
    else
      var t := c.mem[dir][page / 1024] / 4096;
      Outcome(c.mem[t := c.mem[t][page % 1024 := entry]], true)
  }

  /** The tables are separate, and nothing that paging writes to is in the bitmap. */
  ghost predicate Safe(mem: seq<Frame>, dir: nat, limit: nat) {
    && |mem| == PAGES && dir < PAGES && limit <= 0x10_0000
    && Separate(Seen(mem, dir, limit), dir) && OffBitmap(Seen(mem, dir, limit), dir)
  }

  lemma FreshFrame(mem: seq<Frame>, dir: nat, limit: nat, s: nat)
    requires Safe(mem, dir, limit) && FirstFit(UsedIn(mem, limit), limit, s, 1)
    ensures s !in UsedIn(mem, limit) && 0 < s < limit && s != dir && s !in Bitmap() && dir !in Bitmap()
  {
    assert 0 in UsedIn(mem, limit) && dir in UsedIn(mem, limit);
  }

  /** Making a table in a free frame, on the memory that holds the bitmap. */
  lemma MakesTableInMemory(mem: seq<Frame>, dir: nat, limit: nat, index: nat, s: nat, flags: uint32, mem': seq<Frame>)
    requires Safe(mem, dir, limit) && index < ENTRIES && mem[dir][index] == 0 && flags < 4096
    requires FirstFit(UsedIn(mem, limit), limit, s, 1)
    requires s < 0x10_0000
    requires var m := Mark(mem, s); mem' == m[dir := m[dir][index := s * 4096 + flags]][s := ZeroFrame()]
    ensures Safe(mem', dir, limit)
    ensures AddsTable(Seen(mem, dir, limit), Seen(mem', dir, limit), index, s, flags)
  {
    hide FirstFit, UsedIn, Mark, Bitmap, Separate, AddsTable, LeafOf;
    var used, m := UsedIn(mem, limit), Mark(mem, s);
    FreshFrame(mem, dir, limit, s);
    InBitmap(s);
    SameTables(mem, m, dir, used);
    MarkUses(mem, limit, s);
    WriteTable(m, dir, used, index, s, flags, mem');
    WriteOffBitmap(m, limit, dir, m[dir][index := s * 4096 + flags]);
    WriteOffBitmap(m[dir := m[dir][index := s * 4096 + flags]], limit, s, ZeroFrame());
    StaysOff(Seen(mem, dir, limit), Seen(mem', dir, limit), dir, index, s, flags);
  }

  lemma StaysOff(v: View, m: View, dir: nat, index: nat, s: nat, flags: uint32)
    requires OffBitmap(v, dir) && AddsTable(v, m, index, s, flags)
    ensures OffBitmap(m, dir)
  {
    hide Bitmap;
  }

  lemma LeafInMemory(mem: seq<Frame>, dir: nat, limit: nat, page: nat, entry: uint32, mem': seq<Frame>)
    requires Safe(mem, dir, limit) && page < PAGES && mem[dir][page / 1024] != 0
    requires var t := mem[dir][page / 1024] / 4096; mem' == mem[t := mem[t][page % 1024 := entry]]
    ensures Safe(mem', dir, limit)
    ensures var v := Seen(mem, dir, limit); Seen(mem', dir, limit) == v.(leaf := v.leaf[page := entry])
  {
    hide UsedIn, Bitmap, LeafOf, Separate;
    var t := mem[dir][page / 1024] / 4096;
    assert Seen(mem, dir, limit).pd[page / 1024] / 4096 !in Bitmap();
    WriteOffBitmap(mem, limit, t, mem[t][page % 1024 := entry]);
    WriteLeaf(mem, dir, UsedIn(mem, limit), page, entry, mem');
  }

  lemma {:induction false} CreatesStep(mem: seq<Frame>, dir: nat, index: nat, flags: uint32, limit: nat, depth: nat)
    requires Safe(mem, dir, limit) && index < ENTRIES && flags < 4096 && |EmptySlots(mem[dir])| <= depth
    ensures var r := Create(mem, dir, index, flags, limit, depth);
            && Safe(r.mem, dir, limit)
            && CreateStep(Seen(mem, dir, limit), Seen(r.mem, dir, limit), index, flags, r.ok, limit)
    decreases depth, 0
  {
    hide FirstFit, UsedIn, Mark, Separate, AddsTable, MapStep, CreateStep, Map, OffBitmap, LeafOf, TheFit, HasFreeRun;
    var v, used := Seen(mem, dir, limit), UsedIn(mem, limit);
    if mem[dir][index] != 0 {
      NothingToCreate(v, dir, index, flags, limit);
    } else if HasFreeRun(used, limit, 1) {
      var s, r := TheFit(used, limit, 1), Create(mem, dir, index, flags, limit, depth);
      FreshFrame(mem, dir, limit, s);
      NotMarked(mem, dir, s);
      var e := s * 4096 + flags;
      var m': seq<Frame> := Mark(mem, s)[dir := mem[dir][index := e]][s := ZeroFrame()];
      MakesTableInMemory(mem, dir, limit, index, s, flags, m');
      FewerSlots(mem[dir], index, e);
      MapsStep(m', dir, s, e, flags, limit, depth - 1);
      var x := Map(m', dir, s, e, flags, limit, depth - 1);
      CreateThenMap(v, Seen(m', dir, limit), Seen(x.mem, dir, limit), index, s, flags, x.ok, limit);
    } else {
      NothingCreated(v, dir, index, flags, limit);
    }
  }

  lemma NotMarked(mem: seq<Frame>, dir: nat, s: nat)
    requires |mem| == PAGES && dir < PAGES && dir !in Bitmap() && s < 0x10_0000
    ensures Mark(mem, s)[dir] == mem[dir]
  {
    InBitmap(s);
  }

  lemma FewerSlots(pd: seq<uint32>, index: nat, e: uint32)
    requires index < |pd| && pd[index] == 0 && e != 0
    ensures |EmptySlots(pd[index := e])| < |EmptySlots(pd)|
  {
    SlotFilled(pd, index, e);
    assert index in EmptySlots(pd);
  }

  lemma {:induction false} MapsStep(mem: seq<Frame>, dir: nat, page: nat, entry: uint32, flags: uint32, limit: nat,
                                    depth: nat)
    requires Safe(mem, dir, limit) && page < PAGES && flags < 4096 && |EmptySlots(mem[dir])| <= depth
    ensures var r := Map(mem, dir, page, entry, flags, limit, depth);
            && Safe(r.mem, dir, limit)
            && MapStep(Seen(mem, dir, limit), Seen(r.mem, dir, limit), page, entry, flags, r.ok, limit)
    decreases depth, 1
  {
    hide UsedIn, Separate, MapStep, CreateStep, Create, OffBitmap, LeafOf;
    var v, c := Seen(mem, dir, limit), Create(mem, dir, page / 1024, flags, limit, depth);
    CreatesStep(mem, dir, page / 1024, flags, limit, depth);
    var m := Seen(c.mem, dir, limit);
    if c.ok {
      SlotCreated(v, m, page / 1024, flags, limit);
      var r := Map(mem, dir, page, entry, flags, limit, depth);
      LeafInMemory(c.mem, dir, limit, page, entry, r.mem);
      CreateThenWrite(v, m, Seen(r.mem, dir, limit), page, entry, flags, limit);
    } else {
      CreateFails(v, m, page, entry, flags, limit);
    }
  }

  /** `unmap_page`: without a table the word written is one of frame 0. */
  ghost function Unmap(mem: seq<Frame>, dir: nat, page: nat): (r: seq<Frame>)
    requires |mem| == PAGES && dir < PAGES && page < PAGES
    ensures |r| == PAGES
  {
    var t := mem[dir][page / 1024] / 4096;
    mem[t := mem[t][page % 1024 := ClearAttribute(SetFrame(mem[t][page % 1024], 0), PRESENT)]]
  }

  lemma UnmapsStep(mem: seq<Frame>, dir: nat, page: nat, limit: nat)
    requires Safe(mem, dir, limit) && page < PAGES
    ensures var r := Unmap(mem, dir, page);
            Safe(r, dir, limit) && UnmapStep(Seen(mem, dir, limit), Seen(r, dir, limit), page)
  {
    hide UsedIn, Separate, OffBitmap, SetFrame, ClearAttribute, LeafOf;
    var r, t := Unmap(mem, dir, page), mem[dir][page / 1024] / 4096;
    UnmappedEntry(mem[t][page % 1024]);
    if mem[dir][page / 1024] == 0 {
      ZeroNotBitmap();
      WriteFrameZero(mem, dir, UsedIn(mem, limit), r[0]);
      WriteOffBitmap(mem, limit, 0, r[0]);
    } else {
      LeafShown(mem, dir, UsedIn(mem, limit), page);
      LeafInMemory(mem, dir, limit, page, r[t][page % 1024], r);
    }
    SizesSeen(mem, dir, limit);
  }

  lemma ZeroNotBitmap()
    ensures 0 !in Bitmap()
  {
  }

  lemma SizesSeen(mem: seq<Frame>, dir: nat, limit: nat)
    requires |mem| == PAGES && dir < PAGES && limit <= 0x10_0000
    ensures var v := Seen(mem, dir, limit); |v.pd| == ENTRIES && |v.leaf| == PAGES
  {
  }

  lemma AllocatesSafely(mem: seq<Frame>, dir: nat, limit: nat, n: uint32)
    requires Safe(mem, dir, limit)
    ensures Safe(Allocate(mem, limit, n), dir, limit)
    ensures AllocStep(Seen(mem, dir, limit), Seen(Allocate(mem, limit, n), dir, limit), n, limit)
  {
    hide UsedIn, Bitmap, FirstFit, HasFreeRun, Allocate;
    AllocatesStep(mem, dir, limit, n);
  }

  /** One operation on memory. A map nests at most once for each slot of the directory. */
  ghost function Apply(mem: seq<Frame>, dir: nat, op: Op, limit: nat): (r: seq<Frame>)
    requires |mem| == PAGES && dir < PAGES && limit <= 0x10_0000 && (op.MapOp? ==> op.flags < 4096)
    ensures |r| == PAGES
  {
    match op
    case MapOp(phys, virt, flags) => Map(mem, dir, virt / 4096, Entry(phys, flags), flags, limit, ENTRIES).mem
    case UnmapOp(virt) => Unmap(mem, dir, virt / 4096)
    case AllocOp(n) => Allocate(mem, limit, n)
  }

  lemma SlotsCount(pd: seq<uint32>)
    requires |pd| == ENTRIES
    ensures |EmptySlots(pd)| <= ENTRIES
  {
    SubsetCount(EmptySlots(pd), ENTRIES);
  }

  /** From a safe memory every operation is a step of the transition system, to a safe memory. */
  lemma AppliesStep(mem: seq<Frame>, dir: nat, op: Op, limit: nat)
    requires Safe(mem, dir, limit) && (op.MapOp? ==> op.flags < 4096)
    ensures Safe(Apply(mem, dir, op, limit), dir, limit)
    ensures Step(Seen(mem, dir, limit), op, Seen(Apply(mem, dir, op, limit), dir, limit), limit)
  {
    hide Separate, OffBitmap, MapStep, UnmapStep, AllocStep, Map, Unmap, Allocate, Entry, Seen;
    match op {
      case MapOp(phys, virt, flags) =>
        SlotsCount(mem[dir]);
        MapsStep(mem, dir, virt / 4096, Entry(phys, flags), flags, limit, ENTRIES);
      case UnmapOp(virt) =>
        UnmapsStep(mem, dir, virt / 4096, limit);
      case AllocOp(n) =>
        AllocatesSafely(mem, dir, limit, n);
    }
  }

  /** Memories one after another, each made from the last by an operation. */
  ghost predicate MemoryRun(mems: seq<seq<Frame>>, ops: seq<Op>, dir: nat, limit: nat) {
    && |mems| == |ops| + 1 && dir < PAGES && limit <= 0x10_0000 && (forall mem | mem in mems :: |mem| == PAGES)
    && (forall op | op in ops && op.MapOp? :: op.flags < 4096)
    && forall i | 0 <= i < |ops| :: mems[i + 1] == Apply(mems[i], dir, ops[i], limit)
  }

  ghost function AllSeen(mems: seq<seq<Frame>>, dir: nat, limit: nat): (trace: seq<View>)
    requires dir < PAGES && limit <= 0x10_0000 && forall mem | mem in mems :: |mem| == PAGES
    ensures |trace| == |mems| && forall i | 0 <= i < |mems| :: trace[i] == Seen(mems[i], dir, limit)
  {
    seq(|mems|, i requires 0 <= i < |mems| => Seen(mems[i], dir, limit))
  }

  lemma {:induction false} StaysSafe(mems: seq<seq<Frame>>, ops: seq<Op>, dir: nat, limit: nat, j: nat)
    requires MemoryRun(mems, ops, dir, limit) && Safe(mems[0], dir, limit) && j < |mems|
    ensures Safe(mems[j], dir, limit)
  {
    hide Safe, Apply, Step, Seen;
    if j > 0 {
      StaysSafe(mems, ops, dir, limit, j - 1);
      assert ops[j - 1] in ops;
      AppliesStep(mems[j - 1], dir, ops[j - 1], limit);
    }
  }

  /** With the bitmap in the memory that is written, every run from a safe memory is a run of the transition system. */
  lemma MemoryRunIsRun(mems: seq<seq<Frame>>, ops: seq<Op>, dir: nat, limit: nat)
    requires MemoryRun(mems, ops, dir, limit) && Safe(mems[0], dir, limit)
    ensures Run(AllSeen(mems, dir, limit), ops, limit)
  {
    hide Safe, Apply, Step, Seen;
    forall i | 0 <= i < |ops|
      ensures Step(AllSeen(mems, dir, limit)[i], ops[i], AllSeen(mems, dir, limit)[i + 1], limit)
    {
      StaysSafe(mems, ops, dir, limit, i);
      assert ops[i] in ops;
      AppliesStep(mems[i], dir, ops[i], limit);
    }
  }

  /** So in memory, too, slots keep their tables, and no allocation hands out the directory or a table. */
  lemma SafeInMemory(mems: seq<seq<Frame>>, ops: seq<Op>, dir: nat, limit: nat, i: nat, j: nat, slot: nat)
    requires MemoryRun(mems, ops, dir, limit) && Safe(mems[0], dir, limit)
    requires i < |mems| && j < |ops| && ops[j].AllocOp? && slot < ENTRIES && mems[i][dir][slot] != 0
    ensures var taken := UsedIn(mems[j + 1], limit) - UsedIn(mems[j], limit);
            dir !in taken && mems[i][dir][slot] / 4096 !in taken
    ensures j >= i ==> mems[j][dir][slot] == mems[i][dir][slot]
  {
    hide Apply, Step, UsedIn, OffBitmap, Separate;
    var trace := AllSeen(mems, dir, limit);
    MemoryRunIsRun(mems, ops, dir, limit);
    SizesSeen(mems[i], dir, limit);
    TablesNeverHandedOut(trace, ops, dir, limit, i, j, slot);
    if j >= i {
      TablesNeverMove(trace, ops, dir, limit, i, j);
    }
  }

  /** From a memory that is not safe: with frame 48 the lowest free one, the next table that is made is made there, and
      what is left of the bitmap's first frame has bits for blocks 0, 1 and 2 only. */
  lemma TableInBitmap(mem: seq<Frame>, dir: nat, limit: nat, slot: nat)
    requires |mem| == PAGES && dir < PAGES && limit <= 0x10_0000 && dir !in Bitmap()
    requires FirstFit(UsedIn(mem, limit), limit, BITMAP_START, 1)
    requires 0 < slot < ENTRIES && mem[dir][slot] == 0 && mem[dir][0] != 0
    requires mem[dir][0] / 4096 != dir && mem[dir][0] / 4096 !in Bitmap()
    ensures Apply(mem, dir, MapOp(0, slot * 0x40_0000, 7), limit)[BITMAP_START] == ZeroFrame()[0 := 7]
    ensures Apply(mem, dir, MapOp(0, slot * 0x40_0000, 7), limit)[dir][slot] / 4096 == BITMAP_START
  {
    hide UsedIn, Mark, FirstFit, HasFreeRun, TheFit, Bitmap, Map, Create;
    var page := slot * 1024;
    assert slot * 0x40_0000 / 4096 == page && page / 1024 == slot && page % 1024 == 0;
    StartInBitmap();
    CreatedInBitmap(mem, dir, limit, slot);
    MapCreates(mem, dir, page, limit);
  }

  lemma MapCreates(mem: seq<Frame>, dir: nat, page: nat, limit: nat)
    requires |mem| == PAGES && dir < PAGES && limit <= 0x10_0000 && page < PAGES
    ensures var c := Create(mem, dir, page / 1024, 7, limit, ENTRIES);
            c.ok ==>
              var t := c.mem[dir][page / 1024] / 4096;
              Map(mem, dir, page, 7, 7, limit, ENTRIES).mem == c.mem[t := c.mem[t][page % 1024 := 7]]
  {
    hide Create;
  }

  lemma CreatedInBitmap(mem: seq<Frame>, dir: nat, limit: nat, slot: nat)
    requires |mem| == PAGES && dir < PAGES && limit <= 0x10_0000 && dir !in Bitmap()
    requires FirstFit(UsedIn(mem, limit), limit, BITMAP_START, 1)
    requires 0 < slot < ENTRIES && mem[dir][slot] == 0 && mem[dir][0] != 0
    requires mem[dir][0] / 4096 != dir && mem[dir][0] / 4096 !in Bitmap()
    ensures var c := Create(mem, dir, slot, 7, limit, ENTRIES);
            c.ok && c.mem[dir][slot] == BITMAP_START * 4096 + 7 && c.mem[BITMAP_START] == ZeroFrame()
  {
    hide UsedIn, Mark, FirstFit, HasFreeRun, TheFit, Map, Bitmap;
    var used := UsedIn(mem, limit);
    FitIffRun(used, limit, 1);
    FirstFitUnique(used, limit, TheFit(used, limit, 1), BITMAP_START, 1);
    NotMarked(mem, dir, BITMAP_START);
    StartInBitmap();
    var self := BITMAP_START * 4096 + 7;
    var m := Mark(mem, BITMAP_START);
    var made: seq<Frame> := m[dir := m[dir][slot := self]][BITMAP_START := ZeroFrame()];
    SelfMapped48(made, dir, mem[dir][0] / 4096, limit);
    assert Create(mem, dir, slot, 7, limit, ENTRIES)
        == Outcome(Map(made, dir, BITMAP_START, self, 7, limit, ENTRIES - 1).mem, true);
  }

  lemma StartInBitmap()
    ensures BITMAP_START in Bitmap()
  {
  }

  lemma SelfMapped48(made: seq<Frame>, dir: nat, t: nat, limit: nat)
    requires |made| == PAGES && dir < PAGES && limit <= 0x10_0000 && made[dir][0] != 0 && t == made[dir][0] / 4096
    ensures Map(made, dir, BITMAP_START, BITMAP_START * 4096 + 7, 7, limit, ENTRIES - 1).mem
         == made[t := made[t][BITMAP_START := BITMAP_START * 4096 + 7]]
  {
    assert BITMAP_START / 1024 == 0 && BITMAP_START % 1024 == BITMAP_START;
  }

  /** With only those bits, no other block below 32768 counts as used. */
  lemma FewBits(mem: seq<Frame>, limit: nat, b: nat)
    requires |mem| == PAGES && limit <= 0x10_0000 && mem[BITMAP_START] == ZeroFrame()[0 := 7] && 3 <= b < 0x8000
    ensures b !in UsedIn(mem, limit)
  {
    NoBits(b % 32);
    if b < 32 {
      assert Bit(7, b) == Bit(3, b - 1) == Bit(1, b - 2) == Bit(0, b - 3);
      NoBits(b - 3);
    }
  }

  /** Allocating single frames reaches every free one, whatever is in memory. */
  lemma {:induction false} AllocationsReachInMemory(mem: seq<Frame>, dir: nat, limit: nat, b: nat)
    returns (mems: seq<seq<Frame>>, ops: seq<Op>)
    requires |mem| == PAGES && dir < PAGES && limit <= 0x10_0000 && b < limit && b !in UsedIn(mem, limit)
    ensures MemoryRun(mems, ops, dir, limit) && mems[0] == mem && ops != []
    ensures ops[|ops| - 1] == AllocOp(1) && b in UsedIn(mems[|ops|], limit) - UsedIn(mems[|ops| - 1], limit)
    decreases Blocks(0, b) - UsedIn(mem, limit)
  {
    hide UsedIn, TheFit, Mark, MarkAll, FirstFit;
    var used := UsedIn(mem, limit);
    assert HasFreeRun(used, limit, 1) by {
      assert FreeRun(used, limit, b, 1);
    }
    var s := TheFit(used, limit, 1);
    var next := Apply(mem, dir, AllocOp(1), limit);
    MarkAllUses(mem, limit, s, 1);
    OneMarked(used, limit, s, b);
    if s == b {
      mems, ops := [mem, next], [AllocOp(1)];
    } else {
      assert s in Blocks(0, b) && s !in used && s in UsedIn(next, limit);
      mems, ops := AllocationsReachInMemory(next, dir, limit, b);
      MemoryRunPrefixed(mem, mems, ops, dir, limit);
      mems, ops := [mem] + mems, [AllocOp(1)] + ops;
    }
  }

  lemma OneMarked(used: set<nat>, limit: nat, s: nat, b: nat)
    requires FirstFit(used, limit, s, 1) && b !in used && b < limit
    ensures s <= b && s !in used && Blocks(s, 1) == {s}
  {
    assert FreeRun(used, limit, b, 1);
  }

  lemma MemoryRunPrefixed(mem: seq<Frame>, mems: seq<seq<Frame>>, ops: seq<Op>, dir: nat, limit: nat)
    requires MemoryRun(mems, ops, dir, limit) && |mem| == PAGES && mems[0] == Apply(mem, dir, AllocOp(1), limit)
    ensures MemoryRun([mem] + mems, [AllocOp(1)] + ops, dir, limit)
  {
    hide Apply;
  }

  /** So a run of one mapping and some allocations hands out the directory. */
  lemma DirectoryHandedOut(mem: seq<Frame>, dir: nat, limit: nat, slot: nat)
    returns (mems: seq<seq<Frame>>, ops: seq<Op>)
    requires |mem| == PAGES && 3 <= dir < 0x8000 && dir < limit <= 0x10_0000 && dir !in Bitmap()
    requires FirstFit(UsedIn(mem, limit), limit, BITMAP_START, 1)
    requires 0 < slot < ENTRIES && mem[dir][slot] == 0 && mem[dir][0] != 0
    requires mem[dir][0] / 4096 != dir && mem[dir][0] / 4096 !in Bitmap()
    ensures MemoryRun([mem] + mems, [MapOp(0, slot * 0x40_0000, 7)] + ops, dir, limit) && ops != []
    ensures ops[|ops| - 1] == AllocOp(1) && |mems| == |ops| + 1
    ensures (forall m | m in mems :: |m| == PAGES)
            && dir in UsedIn(mems[|ops|], limit) - UsedIn(mems[|ops| - 1], limit)
  {
    hide UsedIn, Apply, FirstFit;
    var op := MapOp(0, slot * 0x40_0000, 7);
    var next := Apply(mem, dir, op, limit);
    TableInBitmap(mem, dir, limit, slot);
    FewBits(next, limit, dir);
    mems, ops := AllocationsReachInMemory(next, dir, limit, dir);
  }
}
