/** The two tables and the directory that the boot code fills in. */
module InitialTables {
  import opened Bitwise
  import opened PhysicalMemory
  import opened PageTables
  import opened PagingRuns

  /** A supervisor page entry built attribute by attribute from 0. */
  function PageEntry(frame: uint32): (e: uint32)
    ensures frame % 4096 == 0 ==> e == frame + 3
  {
    FrameOverAttributes(frame);
    SetFrame(SetAttribute(SetAttribute(0, PRESENT), WRITABLE), frame)
  }

  lemma FrameOverAttributes(frame: uint32)
    ensures frame % 4096 == 0 ==> SetFrame(SetAttribute(SetAttribute(0, PRESENT), WRITABLE), frame) == frame + 3
  {
    assert Or(0, 1) == 1 && Or(1, 2) == 3 by {
      OrComm(0, 1);
      OrZero(1);
    }
    assert AndNot(3, 0x7FFF_F000) == 3 by {
      assert AndNot(1, 0x3FFF_F800) == 1;
    }
    if frame % 4096 == 0 {
      Pow2At32();
      OrIsSum(frame, 3, 12);
      OrComm(3, frame);
    }
  }

  lemma {:induction false} OrComm(a: nat, b: nat)
    ensures Or(a, b) == Or(b, a)
    decreases a + b
  {
    if a > 0 || b > 0 {
      OrComm(a / 2, b / 2);
    }
  }

  /** The first 4 MB in table `low`, 4 MB from 1 MB on in table `high`, for addresses 0 and 3 GB. */
  ghost predicate IsInitial(mem: seq<Frame>, high: nat, low: nat, dir: nat) {
    && |mem| == PAGES && 0 < high < PAGES && 0 < low < PAGES && 0 < dir < PAGES
    && high != low && high != dir && low != dir
    && (forall i | 0 <= i < ENTRIES :: mem[low][i] == i * 4096 + 3)
    && (forall i | 0 <= i < ENTRIES :: mem[high][i] == 0x10_0000 + i * 4096 + 3)
    && (forall i | 0 <= i < ENTRIES ::
          mem[dir][i] == if i == 768 then high * 4096 + 3 else if i == 0 then low * 4096 + 3 else 0)
  }

  /** Slots 0 and 768 have tables, and no other. */
  ghost predicate TwoTables(v: View) {
    |v.pd| == ENTRIES && forall i | 0 <= i < ENTRIES :: v.pd[i] != 0 <==> i == 0 || i == 768
  }

  /** The frames of the two tables and the three blocks allocated for the directory. */
  ghost function BootFrames(v: View, dir: nat): set<nat>
    requires TwoTables(v)
  {
    {v.pd[0] / 4096, v.pd[768] / 4096} + Blocks(dir, 3)
  }

  /** The frames that boot takes are the first fits, one after another. */
  ghost predicate BootFits(used: set<nat>, limit: nat, high: nat, low: nat, dir: nat) {
    && FirstFit(used, limit, high, 1) && FirstFit(used + {high}, limit, low, 1)
    && FirstFit(used + {high, low}, limit, dir, 3)
  }

  lemma BootFitsUnique(used: set<nat>, limit: nat, high: nat, low: nat, dir: nat, high': nat, low': nat, dir': nat)
    requires BootFits(used, limit, high, low, dir) && BootFits(used, limit, high', low', dir')
    ensures high == high' && low == low' && dir == dir'
  {
    hide FirstFit;
    FirstFitUnique(used, limit, high, high', 1);
    FirstFitUnique(used + {high}, limit, low, low', 1);
    FirstFitUnique(used + {high, low}, limit, dir, dir', 3);
  }

  lemma InitialSlots(mem: seq<Frame>, high: nat, low: nat, dir: nat, used: set<nat>)
    requires IsInitial(mem, high, low, dir)
    ensures var v := Read(mem, dir, used);
            && TwoTables(v) && BootFrames(v, dir) == {low, high} + Blocks(dir, 3)
            && v.pd[768] / 4096 == high && v.pd[0] / 4096 == low
  {
  }

  lemma InitialTranslation(mem: seq<Frame>, high: nat, low: nat, dir: nat, used: set<nat>)
    requires IsInitial(mem, high, low, dir) && {0, high, low, dir} <= used
    ensures Separate(Read(mem, dir, used), dir) && AllPresent(Read(mem, dir, used))
    ensures forall p: nat | p < 0x400 :: Translate(Read(mem, dir, used), p) == Frame(p)
    ensures forall p: nat | 0xC_0000 <= p < 0xC_0400 ::
              Translate(Read(mem, dir, used), p) == Frame(p - 0xC_0000 + 0x100)
    ensures forall p: nat | 0x400 <= p < 0xC_0000 || 0xC_0400 <= p < 0x10_0000 ::
              Translate(Read(mem, dir, used), p) == Fault
  {
    InitialEntries(mem, high, low, dir, used);
    hide IsInitial, IsPresent, Read;
    var v := Read(mem, dir, used);
    PresentIsOdd(0);
    forall p: nat | p < PAGES {
      PresentIsOdd(v.leaf[p]);
    }
    PresentIsOdd(v.pd[0]);
    PresentIsOdd(v.pd[768]);
  }

  lemma InitialEntries(mem: seq<Frame>, high: nat, low: nat, dir: nat, used: set<nat>)
    requires IsInitial(mem, high, low, dir)
    ensures var v := Read(mem, dir, used);
            && v.used == used && |v.pd| == ENTRIES && |v.leaf| == PAGES
            && (forall i: nat | i < ENTRIES ::
                  v.pd[i] == if i == 768 then high * 4096 + 3 else if i == 0 then low * 4096 + 3 else 0)
            && (forall p: nat | p < 0x400 :: v.leaf[p] == p * 4096 + 3)
            && (forall p: nat | 0xC_0000 <= p < 0xC_0400 :: v.leaf[p] == (p - 0xC_0000 + 0x100) * 4096 + 3)
            && (forall p: nat | 0x400 <= p < 0xC_0000 || 0xC_0400 <= p < 0x10_0000 :: v.leaf[p] == 0)
  {
  }

  /** Five free blocks in a row are enough for two tables and a directory, wherever the tables go. */
  lemma BootRoom(used: set<nat>, limit: nat)
    ensures HasFreeRun(used, limit, 5) ==> HasFreeRun(used, limit, 1)
    ensures forall s: nat | HasFreeRun(used, limit, 5) && FirstFit(used, limit, s, 1) ::
              HasFreeRun(used + Blocks(s, 1), limit, 1)
    ensures forall s: nat, t: nat | HasFreeRun(used, limit, 5) && FirstFit(used, limit, s, 1)
                                    && FirstFit(used + Blocks(s, 1), limit, t, 1) ::
              HasFreeRun(used + Blocks(s, 1) + Blocks(t, 1), limit, 3)
  {
    if HasFreeRun(used, limit, 5) {
      ShorterRun(used, limit, 1, 5);
      forall s: nat | FirstFit(used, limit, s, 1)
        ensures HasFreeRun(used + Blocks(s, 1), limit, 4) && HasFreeRun(used + Blocks(s, 1), limit, 1)
      {
        RoomLeft(used, limit, s, 4);
        ShorterRun(used + Blocks(s, 1), limit, 1, 4);
      }
      forall s: nat, t: nat | FirstFit(used, limit, s, 1) && FirstFit(used + Blocks(s, 1), limit, t, 1)
        ensures HasFreeRun(used + Blocks(s, 1) + Blocks(t, 1), limit, 3)
      {
        RoomLeft(used + Blocks(s, 1), limit, t, 3);
      }
    }
  }
}
