/** The memory map of the firmware, and what boot makes of it: which blocks become free, and what the counter says. */
module MemoryMap {
  import opened Bitwise
  import opened PhysicalMemory
  import opened PageTables
  import opened PagingRuns
  import opened BitmapFrames

  datatype SmapEntry = SmapEntry(baseAddress: uint64, length: uint64, kind: uint32)

  /** The (uint32_t) casts keep the low 32 bits. */
  function Low32(x: uint64): uint32 { x % 0x1_0000_0000 }

  function Start(e: SmapEntry): nat { Low32(e.baseAddress) / BLOCK_SIZE }
  function Count(e: SmapEntry): nat { if e.kind == 1 then Low32(e.length) / BLOCK_SIZE else 0 }

  /** The blocks that available entries make free. */
  function Covered(smap: seq<SmapEntry>): set<nat> {
    if smap == [] then {} else Covered(smap[..|smap| - 1]) + Blocks(Start(smap[|smap| - 1]), Count(smap[|smap| - 1]))
  }

  /** How many blocks the entries discount, overlaps counted each time. */
  function Total(smap: seq<SmapEntry>): nat {
    if smap == [] then 0 else Total(smap[..|smap| - 1]) + Count(smap[|smap| - 1])
  }

  /** The blocks that boot means to reserve: low memory and the kernel image. */
  ghost function Reserved(): set<nat> { Blocks(0, 18) + Blocks(256, 20) }

  /** Every entry stays inside the bitmap's 2^20 bits, of which the last is no block's. */
  ghost predicate InRange(smap: seq<SmapEntry>) {
    forall e | e in smap :: Start(e) + Count(e) <= MAX_BLOCKS + 1
  }

  ghost predicate Disjoint(smap: seq<SmapEntry>) {
    forall i, j | 0 <= i < j < |smap| ::
      Blocks(Start(smap[i]), Count(smap[i])) !! Blocks(Start(smap[j]), Count(smap[j]))
  }

  lemma {:induction false} CoveredInRange(smap: seq<SmapEntry>)
    requires InRange(smap)
    ensures Covered(smap) <= Blocks(0, MAX_BLOCKS + 1)
  {
    if smap != [] {
      assert smap[|smap| - 1] in smap;
      CoveredInRange(smap[..|smap| - 1]);
    }
  }

  /** Without overlaps every covered block is discounted exactly once. */
  lemma {:induction false} DisjointTotal(smap: seq<SmapEntry>)
    requires Disjoint(smap)
    ensures |Covered(smap)| == Total(smap)
  {
    if smap != [] {
      var init, e := smap[..|smap| - 1], smap[|smap| - 1];
      DisjointTotal(init);
      BlocksCount(Start(e), Count(e));
      CoveredFrom(init, Blocks(Start(e), Count(e)));
    }
  }

  lemma {:induction false} CoveredFrom(smap: seq<SmapEntry>, other: set<nat>)
    requires forall i | 0 <= i < |smap| :: Blocks(Start(smap[i]), Count(smap[i])) !! other
    ensures Covered(smap) !! other
  {
    if smap != [] {
      CoveredFrom(smap[..|smap| - 1], other);
    }
  }

  /** The set of used blocks after the reservations. */
  ghost function UsedAfterBoot(smap: seq<SmapEntry>): set<nat> {
    Blocks(0, MAX_BLOCKS) - Covered(smap) + Reserved()
  }

  lemma ReservedCount()
    ensures |Reserved()| == 38
    ensures Reserved() <= Blocks(0, MAX_BLOCKS)
  {
    BlocksCount(0, 18);
    BlocksCount(256, 20);
    assert Blocks(0, 18) !! Blocks(256, 20);
  }

  lemma CountAfter(all: set<nat>, covered: set<nat>, reserved: set<nat>)
    requires reserved <= all
    ensures |all - covered + reserved| == |all| - |covered * all| + |reserved| - |reserved - covered|
  {
    assert all == (all - covered) + (covered * all);
    assert reserved == (reserved - covered) + (reserved * covered);
    assert all - covered + reserved == (all - covered) + (reserved * covered);
  }

  /** The counter's error after boot: reserved blocks counted twice, minus blocks discounted twice or past the last. */
  lemma BootDrift(smap: seq<SmapEntry>, counter: uint32)
    requires counter == (MAX_BLOCKS - Total(smap) + 38) % 0x1_0000_0000
    ensures Drift(counter, UsedAfterBoot(smap)) == BootError(smap) % 0x1_0000_0000
  {
    hide Blocks, Reserved, Covered, Total;
    ReservedCount();
    BlocksCount(0, MAX_BLOCKS);
    CountAfter(Blocks(0, MAX_BLOCKS), Covered(smap), Reserved());
    ModMinus(MAX_BLOCKS - Total(smap) + 38, |UsedAfterBoot(smap)|);
  }

  ghost function BootError(smap: seq<SmapEntry>): int {
    |Reserved() - Covered(smap)| - (Total(smap) - |Covered(smap) * Blocks(0, MAX_BLOCKS)|)
  }

  /** For a memory map without overlaps the counter is right after boot iff the map covers what boot reserves; or,
      when it reaches the bit behind the last block, iff it covers all of that but one block. */
  lemma CounterRightIffCovered(smap: seq<SmapEntry>, counter: uint32)
    requires InRange(smap) && Disjoint(smap)
    requires counter == (MAX_BLOCKS - Total(smap) + 38) % 0x1_0000_0000
    ensures counter == |UsedAfterBoot(smap)| <==>
              if MAX_BLOCKS in Covered(smap) then |Reserved() - Covered(smap)| == 1 else Reserved() <= Covered(smap)
  {
    hide Blocks, Reserved, Covered, Total, Drift;
    BootDrift(smap, counter);
    DisjointTotal(smap);
    ReservedCount();
    InsideCount(smap);
    AfterBootInRange(smap);
    DriftIsZero(counter, UsedAfterBoot(smap), MAX_BLOCKS);
    var missing := Reserved() - Covered(smap);
    SmallerCount(Reserved(), missing);
    assert missing == {} <==> Reserved() <= Covered(smap);
  }

  lemma InsideCount(smap: seq<SmapEntry>)
    requires InRange(smap)
    ensures |Covered(smap)| - |Covered(smap) * Blocks(0, MAX_BLOCKS)| == if MAX_BLOCKS in Covered(smap) then 1 else 0
  {
    hide Covered;
    CoveredInRange(smap);
    var inside := Covered(smap) * Blocks(0, MAX_BLOCKS);
    assert Covered(smap) == if MAX_BLOCKS in Covered(smap) then inside + {MAX_BLOCKS} else inside;
  }

  lemma SmallerCount(s: set<nat>, t: set<nat>)
    requires t <= s
    ensures |t| <= |s| && (|t| == 0 <==> t == {})
  {
    assert s == t + (s - t);
  }

  lemma AfterBootInRange(smap: seq<SmapEntry>)
    ensures UsedAfterBoot(smap) <= Blocks(0, MAX_BLOCKS)
  {
    ReservedCount();
  }

  /** Boot never marks the bitmap's own frames: the size it passes is a count of blocks and rounds down to none.
      They are in use after boot iff no entry of the memory map covers any of them. */
  lemma BitmapFramesNotReserved(smap: seq<SmapEntry>)
    ensures UsedAfterBoot(smap) * Bitmap() == Bitmap() - Covered(smap)
    ensures Bitmap() <= UsedAfterBoot(smap) <==> Bitmap() !! Covered(smap)
  {
    hide Covered;
    assert Bitmap() <= Blocks(0, MAX_BLOCKS) && Bitmap() !! Reserved();
  }

  /** The memory map of a machine of 64 MB. */
  function UsualMap(): seq<SmapEntry> {
    [SmapEntry(0, 0x9_F000, 1), SmapEntry(0x10_0000, 0x3F0_0000, 1)]
  }

  lemma UsualCovered()
    ensures Covered(UsualMap()) == Blocks(0, 0x9F) + Blocks(0x100, 0x3F00) && InRange(UsualMap())
  {
    var smap := UsualMap();
    assert smap[..1] == [smap[0]] && smap[..1][..0] == [];
  }

  /** There, all of them are free, though the counter is right. */
  lemma BitmapFreeOnUsualMap()
    ensures var smap := UsualMap();
            InRange(smap) && Disjoint(smap) && Reserved() <= Covered(smap) && Bitmap() !! UsedAfterBoot(smap)
  {
    hide Covered;
    UsualCovered();
    BitmapFramesNotReserved(UsualMap());
  }

  /** Whether boot itself or some run after it hands out a frame of the bitmap: iff the memory map covers one. */
  lemma BitmapHandedOutIffCovered(smap: seq<SmapEntry>, v: View)
    requires UsedAfterBoot(smap) <= v.used
    ensures !(Bitmap() !! Covered(smap)) <==>
              exists trace: seq<View>, ops: seq<Op> ::
                && Run(trace, ops, MAX_BLOCKS) && trace[0] == v
                && !((trace[|ops|].used - UsedAfterBoot(smap)) !! Bitmap())
  {
    hide Covered, UsedAfterBoot, Bitmap;
    BitmapFramesNotReserved(smap);
    if !(Bitmap() !! Covered(smap)) {
      if Bitmap() <= v.used {
        var trace: seq<View>, ops: seq<Op> := [v], [];
        assert Run(trace, ops, MAX_BLOCKS) && trace[|ops|] == v;
      } else {
        BitmapInLimit();
        HandedOutIffFree(v, MAX_BLOCKS);
        var trace: seq<View>, ops: seq<Op> :|
          Run(trace, ops, MAX_BLOCKS) && trace[0] == v && !((trace[|ops|].used - v.used) !! Bitmap());
        assert Run(trace, ops, MAX_BLOCKS) && trace[0] == v;
      }
    }
  }

  lemma BitmapInLimit()
    ensures BITMAP_START + BITMAP_FRAMES <= MAX_BLOCKS
  {
  }

  /** The available entry offers the whole of frame b. */
  predicate Offers(e: SmapEntry, b: nat) {
    e.kind == 1 && e.baseAddress <= b * BLOCK_SIZE && (b + 1) * BLOCK_SIZE <= e.baseAddress + e.length
  }

  /** Too short for a frame, or page-aligned with base and length below 4 GB. */
  predicate Plain(e: SmapEntry) {
    e.length < 4096 || (e.baseAddress % 4096 == 0 && e.baseAddress < 0x1_0000_0000 && e.length < 0x1_0000_0000)
  }

  /** An available entry frees exactly the frames that it offers iff it is plain. It frees others iff it frees any and
      its base is not page-aligned below 4 GB. */
  lemma FreesWhatItOffers(e: SmapEntry)
    requires e.kind == 1
    ensures (forall b :: b in Blocks(Start(e), Count(e)) <==> Offers(e, b))
       <==> Plain(e)
    ensures (forall b | b in Blocks(Start(e), Count(e)) :: Offers(e, b))
       <==> Count(e) == 0 || (e.baseAddress % 4096 == 0 && e.baseAddress < 0x1_0000_0000)
  {
    var a, c := Start(e), Count(e);
    assert c > 0 ==> a in Blocks(a, c);
    assert Offers(e, a) ==> e.baseAddress % 4096 == 0 && e.baseAddress < 0x1_0000_0000;
    if e.length >= 0x1_0000_0000 {
      MoreIsOffered(e);
    }
  }

  /** For a map of such entries the covered frames are those that it offers. */
  lemma {:induction false} CoveredIffOffered(smap: seq<SmapEntry>, b: nat)
    requires forall e | e in smap && e.kind == 1 :: Plain(e)
    ensures b in Covered(smap) <==> exists e :: e in smap && Offers(e, b)
  {
    if smap != [] {
      var init, e := smap[..|smap| - 1], smap[|smap| - 1];
      assert smap == init + [e];
      CoveredIffOffered(init, b);
      if e.kind == 1 {
        FreesWhatItOffers(e);
      }
    }
  }

  /** Above 4 GB frames are freed that the map does not offer, the bitmap's own among them. */
  lemma HighEntryFreesLowFrames()
    ensures var e := SmapEntry(0x1_0000_0000, 0x4000_0000, 1);
            Bitmap() <= Covered([e]) && forall b | b in Bitmap() :: !Offers(e, b)
  {
    var e := SmapEntry(0x1_0000_0000, 0x4000_0000, 1);
    assert [e][..0] == [];
    assert Covered([e]) == Blocks(0, 0x4_0000);
  }

  /** Of 4 GB and more, frames are offered that are not freed. */
  lemma MoreIsOffered(e: SmapEntry)
    requires e.kind == 1 && e.length >= 0x1_0000_0000
    ensures exists b :: b !in Blocks(Start(e), Count(e)) && Offers(e, b)
  {
    var last := e.baseAddress / 4096 + 0xF_FFFF;
    assert Start(e) <= e.baseAddress / 4096 && Count(e) <= 0xF_FFFF;
    assert Offers(e, last) && last !in Blocks(Start(e), Count(e));
  }

  /** One more entry of the memory map, in terms of the bitmap and of the counter. */
  lemma OneMoreEntry(smap: seq<SmapEntry>, i: nat)
    requires i < |smap|
    ensures Covered(smap[..i + 1]) == Covered(smap[..i]) + Blocks(Start(smap[i]), Count(smap[i]))
    ensures Total(smap[..i + 1]) == Total(smap[..i]) + Count(smap[i])
    ensures (MAX_BLOCKS - Total(smap[..i + 1])) % 0x1_0000_0000
         == Sub32((MAX_BLOCKS - Total(smap[..i])) % 0x1_0000_0000, Count(smap[i]))
  {
    assert smap[..i + 1][..i] == smap[..i];
    ModMinus(MAX_BLOCKS - Total(smap[..i]), Count(smap[i]));
  }
}
