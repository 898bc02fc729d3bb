/** What mapping, unmapping and allocating keep, over every run. */
module PagingRuns {
  import opened Bitwise
  import opened PhysicalMemory
  import opened PageTables

  datatype Op =
    | MapOp(physAddress: uint32, virtAddress: uint32, flags: uint32)
    | UnmapOp(virtAddress: uint32)
    | AllocOp(count: uint32)

  ghost predicate Step(v: View, op: Op, w: View, limit: nat) {
    match op
    case MapOp(phys, virt, flags) =>
      flags < 4096 && exists ok :: MapStep(v, w, virt / 4096, Entry(phys, flags), flags, ok, limit)
    case UnmapOp(virt) => UnmapStep(v, w, virt / 4096)
    case AllocOp(n) => AllocStep(v, w, n, limit)
  }

  ghost predicate Run(trace: seq<View>, ops: seq<Op>, limit: nat) {
    |trace| == |ops| + 1 && forall i | 0 <= i < |ops| :: Step(trace[i], ops[i], trace[i + 1], limit)
  }

  /** Slots keep their tables and frames stay used. */
  ghost predicate Keeps(v: View, w: View) {
    && |v.pd| == |w.pd| == ENTRIES
    && v.used <= w.used
    && forall i | 0 <= i < ENTRIES && v.pd[i] != 0 :: w.pd[i] == v.pd[i]
  }

  lemma MapKeepsSeparate(v: View, w: View, dir: nat, page: nat, entry: uint32, flags: uint32, ok: bool, limit: nat)
    requires Separate(v, dir) && page < PAGES && MapStep(v, w, page, entry, flags, ok, limit)
    ensures Separate(w, dir)
  {
    forall i: nat | i < ENTRIES && w.pd[i] != 0 && v.pd[i] == 0
      ensures w.pd[i] / 4096 in w.used && w.pd[i] / 4096 !in v.used
    {
      assert IsNew(v, w, i);
    }
    forall i: nat, j: nat | i < j < ENTRIES && w.pd[i] != 0 && w.pd[j] != 0
      ensures w.pd[i] / 4096 != w.pd[j] / 4096
    {
      assert v.pd[i] == 0 ==> IsNew(v, w, i);
      assert v.pd[j] == 0 ==> IsNew(v, w, j);
    }
    forall p | 0 <= p < PAGES && w.pd[p / 1024] == 0
      ensures w.leaf[p] == 0
    {
      assert v.pd[p / 1024] == 0;
    }
  }

  lemma StepKeeps(v: View, op: Op, w: View, dir: nat, limit: nat)
    requires Separate(v, dir) && Step(v, op, w, limit)
    ensures Separate(w, dir) && Keeps(v, w)
  {
    match op
    case MapOp(phys, virt, flags) =>
      var ok :| MapStep(v, w, virt / 4096, Entry(phys, flags), flags, ok, limit);
      MapKeepsSeparate(v, w, dir, virt / 4096, Entry(phys, flags), flags, ok, limit);
    case UnmapOp(_) =>
    case AllocOp(_) =>
  }

  /** In every reachable state the tables are distinct used frames, and no slot ever changes its table. */
  lemma {:induction false} TablesNeverMove(trace: seq<View>, ops: seq<Op>, dir: nat, limit: nat, i: nat, j: nat)
    requires Run(trace, ops, limit) && Separate(trace[0], dir) && i <= j < |trace|
    ensures Separate(trace[i], dir) && Separate(trace[j], dir) && Keeps(trace[i], trace[j])
    decreases j
  {
    if j > 0 {
      TablesNeverMove(trace, ops, dir, limit, if i < j then i else j - 1, j - 1);
      StepKeeps(trace[j - 1], ops[j - 1], trace[j], dir, limit);
    }
  }

  /** A frame that is handed out is no table of any earlier or later state, nor the directory. */
  lemma TablesNeverHandedOut(trace: seq<View>, ops: seq<Op>, dir: nat, limit: nat, i: nat, j: nat, slot: nat)
    requires Run(trace, ops, limit) && Separate(trace[0], dir)
    requires i < |trace| && j < |ops| && ops[j].AllocOp? && slot < ENTRIES && |trace[i].pd| == ENTRIES
    requires trace[i].pd[slot] != 0
    ensures dir !in trace[j + 1].used - trace[j].used
    ensures trace[i].pd[slot] / 4096 !in trace[j + 1].used - trace[j].used
  {
    TablesNeverMove(trace, ops, dir, limit, j, j + 1);
    if i <= j {
      TablesNeverMove(trace, ops, dir, limit, i, j);
    } else {
      TablesNeverMove(trace, ops, dir, limit, j + 1, i);
      NewOrUsed(trace, ops, dir, limit, j + 1, i, slot);
    }
  }

  lemma StepNewOrKept(v: View, op: Op, w: View, limit: nat, slot: nat)
    requires Step(v, op, w, limit) && |v.pd| == |w.pd| == ENTRIES && slot < ENTRIES
    requires v.pd[slot] == 0 && w.pd[slot] != 0
    ensures w.pd[slot] / 4096 !in v.used
  {
    assert IsNew(v, w, slot);
  }

  /** A table of a later state is a table now, or its frame is still free now. */
  lemma {:induction false} NewOrUsed(trace: seq<View>, ops: seq<Op>, dir: nat, limit: nat, i: nat, j: nat, slot: nat)
    requires Run(trace, ops, limit) && Separate(trace[0], dir) && i <= j < |trace| && slot < ENTRIES
    requires |trace[i].pd| == |trace[j].pd| == ENTRIES && trace[j].pd[slot] != 0
    ensures trace[i].pd[slot] == trace[j].pd[slot] || trace[j].pd[slot] / 4096 !in trace[i].used
    decreases j
  {
    hide Step, Separate;
    if i < j {
      TablesNeverMove(trace, ops, dir, limit, i, j - 1);
      TablesNeverMove(trace, ops, dir, limit, j - 1, j);
      if trace[j - 1].pd[slot] != 0 {
        NewOrUsed(trace, ops, dir, limit, i, j - 1, slot);
      } else {
        StepNewOrKept(trace[j - 1], ops[j - 1], trace[j], limit, slot);
      }
    }
  }

  function Touched(op: Op): set<nat> {
    match op
    case MapOp(_, virt, _) => {virt / 4096}
    case UnmapOp(virt) => {virt / 4096}
    case AllocOp(_) => {}
  }

  /** The table in frame t can be reached at its own address. */
  ghost predicate SelfMapped(v: View, t: nat, flags: uint32) {
    t < PAGES && |v.leaf| == PAGES && v.leaf[t] == t * 4096 + flags
  }

  lemma SelfMapKept(v: View, op: Op, w: View, dir: nat, limit: nat, t: nat, flags: uint32)
    requires Separate(v, dir) && Step(v, op, w, limit) && t in v.used && t !in Touched(op) && SelfMapped(v, t, flags)
    ensures SelfMapped(w, t, flags)
  {
    if op.MapOp? {
      assert t !in NewTables(v, w);
    }
  }

  lemma FreshSelfMapped(v: View, op: Op, w: View, dir: nat, limit: nat, t: nat)
    requires Separate(v, dir) && op.MapOp? && Step(v, op, w, limit) && t !in Touched(op)
    requires |v.pd| == |w.pd| == ENTRIES && t in NewTables(v, w)
    ensures t in w.used && (SelfMapped(w, t, op.flags) || Full(w.used, limit))
  {
  }

  /** A table made at step k stays mapped at its own address unless a caller names that page; it is mapped in the
      first place unless that step took the last frame. */
  lemma {:induction false} SelfAccess(trace: seq<View>, ops: seq<Op>, dir: nat, limit: nat, k: nat, j: nat, t: nat)
    requires Run(trace, ops, limit) && Separate(trace[0], dir) && k < j < |trace|
    requires ops[k].MapOp? && |trace[k].pd| == |trace[k + 1].pd| == ENTRIES && t in NewTables(trace[k], trace[k + 1])
    requires forall i | k <= i < j :: t !in Touched(ops[i])
    ensures SelfMapped(trace[j], t, ops[k].flags) || Full(trace[k + 1].used, limit)
    decreases j
  {
    hide Step, Separate, Full, SelfMapped, Touched, NewTables;
    TablesNeverMove(trace, ops, dir, limit, k, k + 1);
    FreshSelfMapped(trace[k], ops[k], trace[k + 1], dir, limit, t);
    if j > k + 1 {
      TablesNeverMove(trace, ops, dir, limit, k + 1, j - 1);
      TablesNeverMove(trace, ops, dir, limit, j - 1, j);
      SelfAccess(trace, ops, dir, limit, k, j - 1, t);
      if !Full(trace[k + 1].used, limit) {
        SelfMapKept(trace[j - 1], ops[j - 1], trace[j], dir, limit, t, ops[k].flags);
      }
    }
  }

  lemma {:induction false} ImageCount(s: set<nat>, w: seq<uint32>)
    requires forall i | i in s :: i < |w|
    requires forall i, j | i in s && j in s && i != j :: w[i] / 4096 != w[j] / 4096
    ensures |set i | i in s :: w[i] / 4096| == |s|
    decreases s
  {
    if s != {} {
      var k :| k in s;
      ImageCount(s - {k}, w);
      assert (set i | i in s :: w[i] / 4096) == (set i | i in s - {k} :: w[i] / 4096) + {w[k] / 4096};
    }
  }

  /** One mapping takes exactly one frame for each slot it fills, so never more than there are empty slots. */
  lemma MapFrames(v: View, w: View, page: nat, entry: uint32, flags: uint32, ok: bool, limit: nat)
    requires page < PAGES && MapStep(v, w, page, entry, flags, ok, limit)
    ensures |w.used| - |v.used| == |EmptySlots(v.pd)| - |EmptySlots(w.pd)|
    ensures |w.used| <= |v.used| + |EmptySlots(v.pd)|
  {
    hide SelfMaps, Full, Entry;
    var filled := set i: nat | i < ENTRIES && IsNew(v, w, i);
    FilledSlots(v, w, flags, filled);
    ImageCount(filled, w.pd);
  }

  lemma FilledSlots(v: View, w: View, flags: uint32, filled: set<nat>)
    requires Grows(v, w, flags) && filled == set i: nat | i < ENTRIES && IsNew(v, w, i)
    ensures |EmptySlots(v.pd)| == |EmptySlots(w.pd)| + |filled|
    ensures |w.used| == |v.used| + |set i | i in filled :: w.pd[i] / 4096|
  {
    assert EmptySlots(v.pd) == EmptySlots(w.pd) + filled;
    assert EmptySlots(w.pd) !! filled;
    assert NewTables(v, w) == set i | i in filled :: w.pd[i] / 4096;
    assert v.used !! NewTables(v, w);
  }

  datatype Translation = Fault | Frame(number: nat)

  predicate IsPresent(e: uint32) {
    And(e, PRESENT) != 0
  }

  /** What the processor does with an address in page p (SDM Volume 3A, section 4.3). */
  ghost function Translate(v: View, p: nat): Translation
    requires |v.pd| == ENTRIES && |v.leaf| == PAGES && p < PAGES
  {
    if IsPresent(v.pd[p / 1024]) && IsPresent(v.leaf[p]) then Frame(v.leaf[p] / 4096) else Fault
  }

  lemma PresentIsOdd(e: uint32)
    ensures IsPresent(e) <==> e % 2 == 1
  {
    MaskTest(e, 0);
  }

  lemma OddFlags(e: nat, flags: nat)
    requires e % 4096 == flags && flags % 2 == 1
    ensures e % 2 == 1
  {
    assert e == 2 * (2048 * (e / 4096)) + flags;
  }

  predicate AllPresent(v: View) {
    forall i | 0 <= i < |v.pd| && v.pd[i] != 0 :: IsPresent(v.pd[i])
  }

  lemma MapStaysPresent(v: View, w: View, page: nat, entry: uint32, flags: uint32, ok: bool, limit: nat)
    requires page < PAGES && flags < 4096 && flags % 2 == 1
    requires AllPresent(v) && MapStep(v, w, page, entry, flags, ok, limit)
    ensures AllPresent(w)
  {
    GrowsPresent(v, w, flags);
  }

  lemma GrowsPresent(v: View, w: View, flags: uint32)
    requires flags % 2 == 1 && AllPresent(v) && Grows(v, w, flags)
    ensures AllPresent(w)
  {
    hide IsPresent, NewTables;
    forall i: nat | i < ENTRIES && w.pd[i] != 0
      ensures IsPresent(w.pd[i])
    {
      if v.pd[i] == 0 {
        assert IsNew(v, w, i);
        OddFlags(w.pd[i], flags);
        PresentIsOdd(w.pd[i]);
      }
    }
  }

  /** A successful present mapping translates its page to the given frame and every other page as before,
      but for the tables it made, which translate to themselves unless frames ran out. */
  lemma MapTranslates(v: View, w: View, dir: nat, page: nat, phys: uint32, flags: uint32, ok: bool, limit: nat)
    requires page < PAGES && phys % 4096 == 0 && flags < 4096 && flags % 2 == 1
    requires Separate(v, dir) && AllPresent(v) && MapStep(v, w, page, Entry(phys, flags), flags, ok, limit)
    ensures ok ==> Translate(w, page) == Frame(phys / 4096)
    ensures forall p | 0 <= p < PAGES && p != page && p !in NewTables(v, w) :: Translate(w, p) == Translate(v, p)
    ensures forall t | t in NewTables(v, w) && t != page && !Full(w.used, limit) ::
              t < PAGES && Translate(w, t) == Frame(t)
  {
    hide Separate, MapStep, IsPresent, Translate, Full, Entry, NewTables;
    MapStaysPresent(v, w, page, Entry(phys, flags), flags, ok, limit);
    MapElsewhere(v, w, dir, page, Entry(phys, flags), flags, ok, limit);
    if ok {
      OddTranslates(w, page);
    }
    forall p: nat | p < PAGES && p != page && p !in NewTables(v, w)
      ensures Translate(w, p) == Translate(v, p)
    {
      SameTranslates(v, w, p);
    }
    SelfMapsTranslate(v, w, page, flags, limit);
  }

  lemma MapElsewhere(v: View, w: View, dir: nat, page: nat, entry: uint32, flags: uint32, ok: bool, limit: nat)
    requires Separate(v, dir) && page < PAGES && MapStep(v, w, page, entry, flags, ok, limit)
    ensures |v.pd| == |w.pd| == ENTRIES && |v.leaf| == |w.leaf| == PAGES && SelfMaps(v, w, flags, page, limit)
    ensures ok ==> w.pd[page / 1024] != 0 && w.leaf[page] == entry
    ensures forall p: nat | p < PAGES && p != page && p !in NewTables(v, w) ::
              w.leaf[p] == v.leaf[p] && (w.pd[p / 1024] == v.pd[p / 1024] || v.leaf[p] == 0)
  {
    hide SelfMaps;
  }

  lemma OddTranslates(w: View, p: nat)
    requires |w.pd| == ENTRIES && |w.leaf| == PAGES && p < PAGES && AllPresent(w)
    requires w.pd[p / 1024] != 0 && w.leaf[p] % 2 == 1
    ensures Translate(w, p) == Frame(w.leaf[p] / 4096)
  {
    PresentIsOdd(w.leaf[p]);
  }

  lemma SameTranslates(v: View, w: View, p: nat)
    requires |v.pd| == |w.pd| == ENTRIES && |v.leaf| == |w.leaf| == PAGES && p < PAGES && w.leaf[p] == v.leaf[p]
    requires v.pd[p / 1024] == w.pd[p / 1024] || v.leaf[p] == 0
    ensures Translate(w, p) == Translate(v, p)
  {
    PresentIsOdd(0);
  }

  lemma SelfMapsTranslate(v: View, w: View, page: nat, flags: uint32, limit: nat)
    requires |v.pd| == |w.pd| == ENTRIES && |v.leaf| == |w.leaf| == PAGES
    requires AllPresent(w) && SelfMaps(v, w, flags, page, limit) && flags < 4096 && flags % 2 == 1
    ensures forall t | t in NewTables(v, w) && t != page && !Full(w.used, limit) ::
              t < PAGES && Translate(w, t) == Frame(t)
  {
    hide IsPresent, Full, Translate;
    forall t | t in NewTables(v, w) && t != page && !Full(w.used, limit)
      ensures t < PAGES && Translate(w, t) == Frame(t)
    {
      OddTranslates(w, t);
    }
  }

  /** An unmapped page faults; every other page translates as before. Its entry keeps the flags but for the present
      bit, and names frame 0, or frame 0x8_0000 when it named one at 2 GB or above. */
  lemma UnmapFaults(v: View, w: View, page: nat)
    requires page < PAGES && UnmapStep(v, w, page)
    requires forall p | 0 <= p < PAGES && v.pd[p / 1024] == 0 :: v.leaf[p] == 0
    ensures Translate(w, page) == Fault
    ensures forall p | 0 <= p < PAGES && p != page :: Translate(w, p) == Translate(v, p)
    ensures v.pd[page / 1024] != 0 ==>
              && w.leaf[page] / 4096 == (if v.leaf[page] < 0x8000_0000 then 0 else 0x8_0000)
              && w.leaf[page] % 4096 == v.leaf[page] % 4096 - v.leaf[page] % 2
  {
    PresentIsOdd(w.leaf[page]);
    PresentIsOdd(0);
    WithoutFrame(v.leaf[page]);
  }

  lemma WithoutFrame(e: uint32)
    ensures var u := e / 0x8000_0000 * 0x8000_0000 + e % 4096 - e % 2;
            && u % 2 == 0 && u / 4096 == (if e < 0x8000_0000 then 0 else 0x8_0000)
            && u % 4096 == e % 4096 - e % 2
  {
    assert e % 4096 % 2 == e % 2;
  }
}
