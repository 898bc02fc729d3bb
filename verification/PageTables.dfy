/** 32-bit paging as a transition system over what the tables say. The format is that of
    section 4.3 ("32-bit paging") of the Intel SDM, Volume 3A. */
module PageTables {
  import opened Bitwise
  import opened PhysicalMemory

  const PAGES: nat := 0x10_0000
  const ENTRIES: nat := 1024
  const PRESENT: uint32 := 1
  const WRITABLE: uint32 := 2

  function PdIndex(v: uint32): (i: nat)
    ensures i == v / 0x40_0000 && i < ENTRIES
  {
    Pow2At32();
    KeepLow(v / Pow2(22), 10);
    And(v / Pow2(22), 0x3FF)
  }

  function PtIndex(v: uint32): (i: nat)
    ensures i == v / 4096 % 1024 && i < ENTRIES
  {
    Pow2At32();
    KeepLow(v / Pow2(12), 10);
    And(v / Pow2(12), 0x3FF)
  }

  lemma HighBitsLost(v: uint32)
    ensures v * 1024 % 0x1_0000_0000 / 1024 == v % 0x40_0000
  {
    var q, r := v / 0x40_0000, v % 0x40_0000;
    assert v * 1024 == 0x1_0000_0000 * q + 1024 * r;
  }

  lemma MiddleBits(v: uint32)
    ensures v % 0x40_0000 / 4096 == v / 4096 % 1024
  {
    var q, r := v / 0x40_0000, v % 0x40_0000;
    assert v / 4096 == 1024 * q + r / 4096;
  }

  /** `v << 10 >> 10 >> 12` on a uint32_t selects the same index as `PtIndex`. */
  function ShiftedPtIndex(v: uint32): (i: nat)
    ensures i == PtIndex(v)
  {
    Pow2At32();
    HighBitsLost(v);
    MiddleBits(v);
    v * Pow2(10) % 0x1_0000_0000 / Pow2(10) / Pow2(12)
  }

  function GetFrame(e: uint32): (f: uint32)
    ensures f == e - e % 4096
  {
    Pow2At32();
    ClearLow(e, 12);
    AndNot(e, 0xFFF)
  }

  /** `address | flags` */
  function Entry(address: uint32, flags: uint32): (e: uint32)
    ensures address % 4096 == 0 && flags < 4096 ==> e == address + flags
  {
    Pow2At32();
    OrBound(address, flags, 32);
    if address % 4096 == 0 && flags < 4096 then OrIsSum(address, flags, 12); Or(address, flags)
    else Or(address, flags)
  }

  function SetAttribute(e: uint32, attribute: uint32): uint32 { Entry(e, attribute) }
  function ClearAttribute(e: uint32, attribute: uint32): uint32 { AndNot(e, attribute) }
  function SetFrame(e: uint32, address: uint32): uint32 { Entry(AndNot(e, 0x7FFF_F000), address) }

  /** A 4 KB frame of physical memory as 1024 words. */
  type Frame = f: seq<uint32> | |f| == 1024 witness seq(1024, _ => 0)

  function ZeroFrame(): Frame { seq(1024, _ => 0) }

  /** pd: the directory. leaf: per page, its table entry, or 0 without a table. used: the frames in use. */
  datatype View = View(pd: seq<uint32>, leaf: seq<uint32>, used: set<nat>)

  /** The entry for page p, or 0 when no table covers it. */
  function LeafOf(mem: seq<Frame>, dir: nat, p: nat): uint32
    requires |mem| == PAGES && dir < PAGES && p < PAGES
  {
    var e := mem[dir][p / 1024];
    if e == 0 then 0 else mem[e / 4096][p % 1024]
  }

  /** What the tables under the directory in frame dir say. */
  function Read(mem: seq<Frame>, dir: nat, used: set<nat>): View
    requires |mem| == PAGES && dir < PAGES
  {
    View(mem[dir], seq(PAGES, p requires 0 <= p < PAGES => LeafOf(mem, dir, p)), used)
  }

  /** Tables are distinct used frames apart from frame 0 and from the directory's own frame. */
  ghost predicate Separate(v: View, dir: nat) {
    && |v.pd| == ENTRIES && |v.leaf| == PAGES
    && 0 in v.used && dir in v.used && dir != 0
    && (forall i | 0 <= i < ENTRIES && v.pd[i] != 0 ::
          v.pd[i] / 4096 in v.used && v.pd[i] / 4096 != dir && v.pd[i] / 4096 != 0)
    && (forall i, j | 0 <= i < j < ENTRIES && v.pd[i] != 0 && v.pd[j] != 0 :: v.pd[i] / 4096 != v.pd[j] / 4096)
    && (forall p | 0 <= p < PAGES && v.pd[p / 1024] == 0 :: v.leaf[p] == 0)
  }

  ghost predicate IsNew(v: View, w: View, i: nat)
    requires |v.pd| == |w.pd| == ENTRIES
  {
    i < ENTRIES && v.pd[i] == 0 && w.pd[i] != 0
  }

  /** The frames of the tables created between v and w. */
  ghost function NewTables(v: View, w: View): set<nat>
    requires |v.pd| == |w.pd| == ENTRIES
  {
    set i: nat | i < ENTRIES && IsNew(v, w, i) :: w.pd[i] / 4096
  }

  /** The directory slots without a table; each creation fills one. */
  ghost function EmptySlots(pd: seq<uint32>): set<nat> {
    set i: nat | i < |pd| && pd[i] == 0
  }

  lemma SlotFilled(pd: seq<uint32>, index: nat, e: uint32)
    requires index < |pd| && pd[index] == 0 && e != 0
    ensures EmptySlots(pd[index := e]) == EmptySlots(pd) - {index}
    ensures EmptySlots(pd[index := e]) < EmptySlots(pd)
  {
    assert index in EmptySlots(pd) && index !in EmptySlots(pd[index := e]);
  }

  ghost predicate Full(used: set<nat>, limit: nat) {
    !HasFreeRun(used, limit, 1)
  }

  /** Old directory entries stay; each new table is one frame that was free; nothing else is taken. */
  ghost predicate Grows(v: View, w: View, flags: uint32) {
    && |v.pd| == |w.pd| == ENTRIES && |v.leaf| == |w.leaf| == PAGES
    && (forall i | 0 <= i < ENTRIES && v.pd[i] != 0 :: w.pd[i] == v.pd[i])
    && (forall i: nat | IsNew(v, w, i) :: w.pd[i] % 4096 == flags && w.pd[i] / 4096 !in v.used)
    && (forall i: nat, j: nat | IsNew(v, w, i) && IsNew(v, w, j) && i != j :: w.pd[i] / 4096 != w.pd[j] / 4096)
    && w.used == v.used + NewTables(v, w)
  }

  /** Every new table can be reached at its own address, unless a later write took that page or frames ran out. */
  ghost predicate SelfMaps(v: View, w: View, flags: uint32, except: nat, limit: nat)
    requires |v.pd| == |w.pd| == ENTRIES && |v.leaf| == |w.leaf| == PAGES
  {
    forall t | t in NewTables(v, w) && t != except ::
      && t < PAGES
      && ((w.pd[t / 1024] != 0 && w.leaf[t] == t * 4096 + flags) || (Full(w.used, limit) && w.leaf[t] == v.leaf[t]))
  }

  /** An empty slot that gets a table gets the lowest free frame. It is the only one that does, if that frame's own
      address has a table already, or by this one. */
  ghost predicate LowestFirst(v: View, w: View, index: nat, limit: nat)
    requires |v.pd| == |w.pd| == ENTRIES && index < ENTRIES
  {
    IsNew(v, w, index) ==>
      var t := w.pd[index] / 4096;
      && FirstFit(v.used, limit, t, 1)
      && (v.pd[t / 1024] != 0 || t / 1024 == index ==> forall i: nat | IsNew(v, w, i) :: i == index)
  }

  ghost predicate CreateStep(v: View, w: View, index: nat, flags: uint32, ok: bool, limit: nat)
    requires index < ENTRIES
  {
    && Grows(v, w, flags)
    && SelfMaps(v, w, flags, PAGES, limit)
    && (forall p | 0 <= p < PAGES && p !in NewTables(v, w) :: w.leaf[p] == v.leaf[p])
    && (ok <==> v.pd[index] != 0 || !Full(v.used, limit))
    && (ok ==> w.pd[index] != 0)
    && LowestFirst(v, w, index, limit)
    && (!ok || v.pd[index] != 0 ==> w == v)
  }

  ghost predicate MapStep(v: View, w: View, page: nat, entry: uint32, flags: uint32, ok: bool, limit: nat)
    requires page < PAGES
  {
    && Grows(v, w, flags)
    && SelfMaps(v, w, flags, page, limit)
    && (forall p | 0 <= p < PAGES && p != page && p !in NewTables(v, w) :: w.leaf[p] == v.leaf[p])
    && (ok <==> v.pd[page / 1024] != 0 || !Full(v.used, limit))
    && (ok ==> w.pd[page / 1024] != 0 && w.leaf[page] == entry)
    && LowestFirst(v, w, page / 1024, limit)
    && (v.pd[page / 1024] != 0 ==> w.pd == v.pd)
    && (!ok ==> w == v)
  }

  ghost predicate AllocStep(v: View, w: View, n: uint32, limit: nat) {
    if n > 0 && HasFreeRun(v.used, limit, n)
    then exists s: nat :: FirstFit(v.used, limit, s, n) && w == v.(used := v.used + Blocks(s, n))
    else w == v
  }

  ghost predicate UnmapStep(v: View, w: View, page: nat)
    requires page < PAGES
  {
    && |v.pd| == ENTRIES && |v.leaf| == PAGES && w.pd == v.pd && w.used == v.used
    && var e := v.leaf[page];
       w.leaf == if v.pd[page / 1024] == 0 then v.leaf
                 else v.leaf[page := e / 0x8000_0000 * 0x8000_0000 + e % 4096 - e % 2]
  }

  /** Clearing frame and present bit leaves the flags but for the lowest one. The mask that clears the frame does not
      have its highest bit. */
  lemma UnmappedEntry(e: uint32)
    ensures ClearAttribute(SetFrame(e, 0), PRESENT) == e / 0x8000_0000 * 0x8000_0000 + e % 4096 - e % 2
  {
    hide AndNot, Pow2, Or;
    var low := AndNot(e, 0x7FFF_F000);
    Pow2At31();
    ClearMiddle(e, 12, 19, 0x7FFF_F000);
    OrZero(low);
    ClearLow(low, 1);
    LowBit(e);
  }

  lemma Pow2At31()
    ensures Pow2(12) == 4096 && Pow2(12) * (Pow2(19) - 1) == 0x7FFF_F000 && Pow2(12 + 19) == 0x8000_0000
  {
    Pow2At32();
    assert Pow2(19) == 0x8_0000;
    assert Pow2(22) == 0x40_0000;
  }

  lemma LowBit(e: uint32)
    ensures (e / 0x8000_0000 * 0x8000_0000 + e % 4096) % 2 == e % 2
    ensures Pow2(1) == 2
  {
    assert e % 4096 % 2 == e % 2;
  }

  /** A directory write that puts a fresh zeroed table in an empty slot. */
  ghost predicate AddsTable(v: View, m: View, index: nat, frame: nat, flags: uint32) {
    && |v.pd| == |m.pd| == ENTRIES && |v.leaf| == PAGES && index < ENTRIES
    && v.pd[index] == 0 && frame !in v.used && 0 < frame && frame * 4096 + flags < 0x1_0000_0000 && flags < 4096
    && m.pd == v.pd[index := frame * 4096 + flags]
    && m.used == v.used + {frame}
    && m.leaf == v.leaf
  }

  /** A table added first and those added later are all the new ones. */
  lemma AddThenGrow(v: View, m: View, w: View, index: nat, frame: nat, flags: uint32)
    requires AddsTable(v, m, index, frame, flags) && Grows(m, w, flags)
    ensures Grows(v, w, flags)
    ensures NewTables(v, w) == NewTables(m, w) + {frame} && frame !in NewTables(m, w)
    ensures |v.leaf| == |w.leaf| == PAGES && w.pd[index] != 0
  {
    forall i: nat | i < ENTRIES
      ensures IsNew(v, w, i) <==> i == index || IsNew(m, w, i)
    {
    }
    assert IsNew(v, w, index) && w.pd[index] / 4096 == frame;
    assert forall i: nat | IsNew(m, w, i) :: IsNew(v, w, i);
  }

  lemma AddedFirst(v: View, m: View, w: View, index: nat, frame: nat, flags: uint32, ok: bool, limit: nat)
    requires AddsTable(v, m, index, frame, flags) && FirstFit(v.used, limit, frame, 1)
    requires frame < PAGES && MapStep(m, w, frame, frame * 4096 + flags, flags, ok, limit)
    ensures |v.pd| == |w.pd| == ENTRIES && LowestFirst(v, w, index, limit)
  {
    hide Full, SelfMaps, FirstFit, NewTables;
    assert w.pd[index] == m.pd[index] && w.pd[index] / 4096 == frame;
    if v.pd[frame / 1024] != 0 || frame / 1024 == index {
      assert w.pd == m.pd;
    }
  }

  /** Adding a table and then mapping it at its own address makes one creation step. */
  lemma CreateThenMap(v: View, m: View, w: View, index: nat, frame: nat, flags: uint32, ok: bool, limit: nat)
    requires AddsTable(v, m, index, frame, flags)
    requires frame < PAGES && MapStep(m, w, frame, frame * 4096 + flags, flags, ok, limit)
    requires FirstFit(v.used, limit, frame, 1)
    ensures CreateStep(v, w, index, flags, true, limit)
  {
    AddThenGrow(v, m, w, index, frame, flags);
    AddedFirst(v, m, w, index, frame, flags, ok, limit);
    assert FreeRun(v.used, limit, frame, 1) && !Full(v.used, limit);
    hide Grows, Full, NewTables, IsNew;
    if !ok {
      assert m == w;
    }
  }

  /** What one mapping does in an empty slot when frame b is the lowest free one and its own page has a table. */
  function TableMadeAt(v: View, page: nat, entry: uint32, flags: uint32, b: nat): View
    requires |v.pd| == ENTRIES && |v.leaf| == PAGES && page < PAGES && b < PAGES && flags < 4096
  {
    var self := b * 4096 + flags;
    View(v.pd[page / 1024 := self], v.leaf[page := entry][b := self], v.used + {b})
  }

  lemma MakesTable(v: View, dir: nat, limit: nat, page: nat, entry: uint32, flags: uint32, b: nat)
    requires Separate(v, dir) && FirstFit(v.used, limit, b, 1) && b < PAGES && v.pd[b / 1024] != 0
    requires page < PAGES && v.pd[page / 1024] == 0 && flags < 4096
    ensures MapStep(v, TableMadeAt(v, page, entry, flags, b), page, entry, flags, true, limit)
  {
    var w, slot := TableMadeAt(v, page, entry, flags, b), page / 1024;
    assert forall i: nat | i < ENTRIES :: IsNew(v, w, i) <==> i == slot;
    assert NewTables(v, w) == {b} by {
      assert IsNew(v, w, slot) && w.pd[slot] / 4096 == b;
    }
    assert FreeRun(v.used, limit, b, 1);
  }

  /** A slot that already has a table needs no creation. */
  lemma NothingToCreate(v: View, dir: nat, index: nat, flags: uint32, limit: nat)
    requires Separate(v, dir) && index < ENTRIES && v.pd[index] != 0
    ensures CreateStep(v, v, index, flags, true, limit)
  {
    assert NewTables(v, v) == {};
  }

  /** Without a free frame nothing is created and nothing changes. */
  lemma NothingCreated(v: View, dir: nat, index: nat, flags: uint32, limit: nat)
    requires Separate(v, dir) && index < ENTRIES && v.pd[index] == 0 && Full(v.used, limit)
    ensures CreateStep(v, v, index, flags, false, limit)
  {
    assert NewTables(v, v) == {};
  }

  lemma SlotCreated(v: View, w: View, index: nat, flags: uint32, limit: nat)
    requires index < ENTRIES && CreateStep(v, w, index, flags, true, limit)
    ensures |w.pd| == ENTRIES && w.pd[index] != 0
  {
  }

  /** With frame 0 in use, address 0 can only mean that no frame is free. */
  lemma FrameZeroTaken(v: View, dir: nat, limit: nat)
    requires Separate(v, dir)
    ensures !FreeRun(v.used, limit, 0, 1)
  {
  }

  lemma FrameTaken(v: View, dir: nat, frame: nat, limit: nat)
    requires Separate(v, dir) && FirstFit(v.used, limit, frame, 1)
    ensures frame !in v.used && frame != 0
    ensures v.used + Blocks(frame, 1) == v.used + {frame}
  {
  }

  lemma CreateFails(v: View, w: View, page: nat, entry: uint32, flags: uint32, limit: nat)
    requires page < PAGES && CreateStep(v, w, page / 1024, flags, false, limit)
    ensures MapStep(v, w, page, entry, flags, false, limit)
  {
  }

  /** Creating a table where needed and then writing the leaf makes one mapping step. */
  lemma CreateThenWrite(v: View, m: View, w: View, page: nat, entry: uint32, flags: uint32, limit: nat)
    requires page < PAGES && CreateStep(v, m, page / 1024, flags, true, limit)
    requires w == m.(leaf := m.leaf[page := entry])
    ensures MapStep(v, w, page, entry, flags, true, limit)
  {
    assert NewTables(v, w) == NewTables(v, m);
  }

  /** Writing a table's word changes the entry of one page. */
  lemma WriteLeaf(mem: seq<Frame>, dir: nat, used: set<nat>, page: nat, entry: uint32, mem': seq<Frame>)
    requires |mem| == PAGES && dir < PAGES && page < PAGES && Separate(Read(mem, dir, used), dir)
    requires mem[dir][page / 1024] != 0
    requires var t := mem[dir][page / 1024] / 4096; mem' == mem[t := mem[t][page % 1024 := entry]]
    ensures var v, w := Read(mem, dir, used), Read(mem', dir, used);
            Separate(w, dir) && w == v.(leaf := v.leaf[page := entry])
  {
    var v, w := Read(mem, dir, used), Read(mem', dir, used);
    var t := mem[dir][page / 1024] / 4096;
    assert v.pd[page / 1024] / 4096 == t && w.pd == v.pd;
    forall p | 0 <= p < PAGES
      ensures w.leaf[p] == v.leaf[page := entry][p]
    {
      assert p / 1024 == page / 1024 && p % 1024 == page % 1024 ==> p == page;
      assert v.pd[p / 1024] != 0 && p / 1024 != page / 1024 ==> v.pd[p / 1024] / 4096 != t;
    }
  }

  /** Pointing an empty slot at a free frame, zeroed, adds an empty table. */
  lemma WriteTable(mem: seq<Frame>, dir: nat, used: set<nat>, index: nat, frame: nat, flags: uint32, mem': seq<Frame>)
    requires |mem| == PAGES && dir < PAGES && index < ENTRIES && Separate(Read(mem, dir, used), dir)
    requires mem[dir][index] == 0 && 0 < frame < PAGES && frame !in used && flags < 4096
    requires mem' == mem[dir := mem[dir][index := frame * 4096 + flags]][frame := ZeroFrame()]
    ensures var v, m := Read(mem, dir, used), Read(mem', dir, used + {frame});
            Separate(m, dir) && AddsTable(v, m, index, frame, flags)
  {
    var v, m := Read(mem, dir, used), Read(mem', dir, used + {frame});
    assert m.pd == v.pd[index := frame * 4096 + flags];
    forall p | 0 <= p < PAGES
      ensures m.leaf[p] == v.leaf[p]
    {
      assert v.pd[p / 1024] != 0 ==> v.pd[p / 1024] / 4096 != frame;
    }
  }

  lemma LeafShown(mem: seq<Frame>, dir: nat, used: set<nat>, page: nat)
    requires |mem| == PAGES && dir < PAGES && page < PAGES && mem[dir][page / 1024] != 0
    ensures Read(mem, dir, used).leaf[page] == mem[mem[dir][page / 1024] / 4096][page % 1024]
  {
  }

  /** A word written to frame 0 is no table's word. */
  lemma WriteFrameZero(mem: seq<Frame>, dir: nat, used: set<nat>, content: Frame)
    requires |mem| == PAGES && dir < PAGES && Separate(Read(mem, dir, used), dir)
    ensures Read(mem[0 := content], dir, used) == Read(mem, dir, used)
  {
    var v, w := Read(mem, dir, used), Read(mem[0 := content], dir, used);
    forall p | 0 <= p < PAGES
      ensures w.leaf[p] == v.leaf[p]
    {
      assert v.pd[p / 1024] != 0 ==> v.pd[p / 1024] / 4096 != 0;
    }
  }
}
