/** The frame bitmap: one bit per 4 KB frame, 1 for used. */
module PhysicalMemory {
  import opened Bitwise

  const BLOCK_SIZE: nat := 4096
  const MAX_BLOCKS: nat := WORD_MAX / BLOCK_SIZE

  /** Where the bitmap lies, and how many frames its 0x8000 words fill. */
  const MEMMAP_AREA: uint32 := 0x3_0000
  const BITMAP_START: nat := MEMMAP_AREA / BLOCK_SIZE
  const BITMAP_FRAMES: nat := 32

  predicate Within(b: nat, s: nat, n: nat) {
    s <= b < s + n
  }

  /** The n blocks that start at s. */
  function Blocks(s: nat, n: nat): set<nat> {
    set b: nat | s <= b < s + n && Within(b, s, n)
  }

  lemma {:induction false} BlocksCount(s: nat, n: nat)
    ensures |Blocks(s, n)| == n
  {
    if n == 0 {
      assert Blocks(s, n) == {};
    } else {
      BlocksCount(s, n - 1);
      assert Blocks(s, n) == Blocks(s, n - 1) + {s + n - 1};
    }
  }

  lemma BlocksStep(s: nat, n: nat)
    ensures Blocks(s, n + 1) == Blocks(s, n) + {s + n}
  {
  }

  /** n consecutive blocks below limit, none of them used. */
  ghost predicate FreeRun(used: set<nat>, limit: nat, s: nat, n: nat) {
    s + n <= limit && forall b: nat | s <= b < s + n :: b !in used
  }

  ghost predicate HasFreeRun(used: set<nat>, limit: nat, n: nat) {
    exists s: nat :: FreeRun(used, limit, s, n)
  }

  /** The lowest start of a free run. */
  ghost predicate FirstFit(used: set<nat>, limit: nat, s: nat, n: nat) {
    && FreeRun(used, limit, s, n)
    && forall t: nat | t < s :: !FreeRun(used, limit, t, n)
  }

  /** There is at most one lowest run. It starts at block 0 only when block 0 itself is free. */
  lemma FirstFitUnique(used: set<nat>, limit: nat, s: nat, t: nat, n: nat)
    requires FirstFit(used, limit, s, n) && FirstFit(used, limit, t, n)
    ensures s == t
    ensures s == 0 <==> FreeRun(used, limit, 0, n)
  {
    assert !(s < t) && !(t < s);
  }

  lemma LowestFreeIs(used: set<nat>, limit: nat, b: nat)
    requires b < limit && b !in used && forall f: nat | f < b :: f in used
    ensures FirstFit(used, limit, b, 1)
  {
    forall t: nat | t < b
      ensures !FreeRun(used, limit, t, 1)
    {
      assert t in used;
    }
  }

  /** Taking the lowest free block leaves room for n blocks where n + 1 were free. */
  lemma RoomLeft(used: set<nat>, limit: nat, s: nat, n: nat)
    requires HasFreeRun(used, limit, n + 1) && FirstFit(used, limit, s, 1)
    ensures HasFreeRun(used + Blocks(s, 1), limit, n)
  {
    var t: nat :| FreeRun(used, limit, t, n + 1);
    assert FreeRun(used, limit, t, 1);
    assert FreeRun(used + Blocks(s, 1), limit, t + 1, n);
  }

  lemma ShorterRun(used: set<nat>, limit: nat, m: nat, n: nat)
    requires HasFreeRun(used, limit, n) && m <= n
    ensures HasFreeRun(used, limit, m)
  {
    var t: nat :| FreeRun(used, limit, t, n);
    assert FreeRun(used, limit, t, m);
  }

  /** Taking a free run adds its length to the number of used blocks. */
  lemma TakeCount(used: set<nat>, limit: nat, s: nat, n: nat)
    requires FreeRun(used, limit, s, n)
    ensures |used + Blocks(s, n)| == |used| + n
  {
    BlocksCount(s, n);
    assert used !! Blocks(s, n);
  }

  /** Giving blocks back removes exactly n of them iff all of them were used. */
  lemma GiveBackCount(used: set<nat>, s: nat, n: nat)
    ensures |used| - n <= |used - Blocks(s, n)| <= |used|
    ensures |used - Blocks(s, n)| == |used| - n <==> Blocks(s, n) <= used
  {
    BlocksCount(s, n);
    var both := used * Blocks(s, n);
    assert used == (used - Blocks(s, n)) + both;
    assert Blocks(s, n) == both + (Blocks(s, n) - used);
  }

  lemma {:induction false} SubsetCount(used: set<nat>, n: nat)
    requires used <= Blocks(0, n)
    ensures |used| <= n
    decreases n
  {
    if n == 0 {
      assert used == {};
    } else {
      SubsetCount(used - {n - 1}, n - 1);
      assert used <= (used - {n - 1}) + {n - 1};
      if n - 1 in used {
        assert used == (used - {n - 1}) + {n - 1};
      } else {
        assert used == used - {n - 1};
      }
    }
  }

  /** `Add32` and `Sub32` are uint32_t arithmetic. */
  function Add32(a: uint32, b: nat): uint32 { (a + b) % 0x1_0000_0000 }
  function Sub32(a: uint32, b: nat): uint32 { (a - b) % 0x1_0000_0000 }

  lemma Add32Step(a: uint32, k: nat)
    ensures Add32(Add32(a, k), 1) == Add32(a, k + 1)
  {
    var q, r := (a + k) / 0x1_0000_0000, Add32(a, k);
    assert a + k + 1 == 0x1_0000_0000 * q + r + 1;
  }

  lemma Sub32Step(a: uint32, k: nat)
    ensures Sub32(Sub32(a, k), 1) == Sub32(a, k + 1)
  {
    var q, r := (a - k) / 0x1_0000_0000, Sub32(a, k);
    assert a - k - 1 == 0x1_0000_0000 * q + r - 1;
  }

  /** How far the counter is from the number of used blocks. */
  ghost function Drift(counter: uint32, used: set<nat>): uint32 {
    (counter - |used|) % 0x1_0000_0000
  }

  lemma DriftIsZero(counter: uint32, used: set<nat>, limit: nat)
    requires limit <= 0x10_0000 && used <= Blocks(0, limit)
    ensures Drift(counter, used) == 0 <==> counter == |used|
  {
    SubsetCount(used, limit);
  }

  lemma ModMinus(a: int, b: int)
    ensures (a % 0x1_0000_0000 - b) % 0x1_0000_0000 == (a - b) % 0x1_0000_0000
  {
    var q := a / 0x1_0000_0000;
    assert a - b == 0x1_0000_0000 * q + (a % 0x1_0000_0000 - b);
  }

  /** Counting a free run as it is taken keeps the counter as right or as wrong as it was. */
  lemma TakeKeepsDrift(used: set<nat>, limit: nat, s: nat, n: uint32, counter: uint32)
    requires FreeRun(used, limit, s, n)
    ensures Drift(Add32(counter, n), used + Blocks(s, n)) == Drift(counter, used)
  {
    TakeCount(used, limit, s, n);
    ModMinus(counter + n, |used| + n);
  }

  /** Discounting a run as it is given back does the same iff the whole run was used. */
  lemma GiveBackKeepsDrift(used: set<nat>, limit: nat, s: nat, n: uint32, counter: uint32)
    requires limit <= 0x10_0000 && s + n <= limit
    ensures Drift(Sub32(counter, n), used - Blocks(s, n)) == Drift(counter, used) <==> Blocks(s, n) <= used
  {
    hide Blocks;
    GiveBackCount(used, s, n);
    var left := |used - Blocks(s, n)|;
    var missing := n - (|used| - left);
    ModMinus(counter - n, left);
    ModMinus(counter - |used|, missing);
    DriftShift(Drift(counter, used), missing);
  }

  lemma DriftShift(d: uint32, missing: int)
    requires 0 <= missing < 0x1_0000_0000
    ensures (d - missing) % 0x1_0000_0000 == d <==> missing == 0
  {
  }

  /** What a caller knows once n blocks at s were handed out. */
  lemma Taken(used: set<nat>, limit: nat, s: nat, n: uint32, counter: uint32)
    requires 0 in used && n > 0 && FirstFit(used, limit, s, n)
    ensures 0 < s && s + n <= limit && Blocks(s, n) !! used
    ensures s in Blocks(s, n) && (n == 1 ==> Blocks(s, n) == {s})
    ensures Drift(Add32(counter, n), used + Blocks(s, n)) == Drift(counter, used)
  {
    TakeKeepsDrift(used, limit, s, n, counter);
    assert s !in used;
  }

  lemma FitKeepsDrift(used: set<nat>, limit: nat, s: nat, n: uint32, counter: uint32)
    requires FirstFit(used, limit, s, n)
    ensures Drift(Add32(counter, n), used + Blocks(s, n)) == Drift(counter, used)
  {
    TakeKeepsDrift(used, limit, s, n, counter);
  }

  /** With block 0 in use, a run is never found at address 0. */
  lemma NotAtZero(used: set<nat>, limit: nat, n: nat)
    requires 0 in used && n > 0
    ensures !FreeRun(used, limit, 0, n)
  {
  }

  class FrameAllocator {
    const memoryMap: array<uint32>
    var maxBlocks: nat
    var usedBlocks: uint32

    /** The bitmap has a bit for every block, and every block has a 32-bit address. */
    ghost predicate Valid()
      reads this`maxBlocks
    {
      maxBlocks <= 32 * memoryMap.Length && maxBlocks <= 0x10_0000
    }

    predicate IsUsed(b: nat)
      requires b < 32 * memoryMap.Length
      reads memoryMap
    {
      Bit(memoryMap[b / 32], b % 32)
    }

    function Used(): set<nat>
      requires Valid()
      reads this`maxBlocks, memoryMap
    {
      set b: nat | b < maxBlocks && IsUsed(b)
    }

    /** The counter agrees with the bitmap. */
    ghost predicate Balanced()
      requires Valid()
      reads this, memoryMap
    {
      usedBlocks == |Used()|
    }

    constructor (words: nat)
      ensures fresh(memoryMap) && memoryMap.Length == words
      ensures maxBlocks == 0 && usedBlocks == 0
    {
      memoryMap := new uint32[words];
      maxBlocks, usedBlocks := 0, 0;
    }

    method SetBlock(bit: nat)
      requires Valid() && bit < maxBlocks
      modifies memoryMap
      ensures Used() == old(Used()) + {bit}
      ensures memoryMap[..] == old(memoryMap[..])[bit / 32 :=
                old(if bit in Used() then memoryMap[bit / 32] else memoryMap[bit / 32] + Pow2(bit % 32))]
    {
      var w, k := bit / 32, bit % 32;
      OrMask(memoryMap[w], k);
      Pow2At32();
      Pow2Mono(k, 32);
      OrBound(memoryMap[w], Pow2(k), 32);
      memoryMap[w] := Or(memoryMap[w], Pow2(k));
      forall b: nat | b < 32 * memoryMap.Length
        ensures IsUsed(b) == (b == bit || old(IsUsed(b)))
      {
        OrBit(old(memoryMap[w]), Pow2(k), b % 32);
        MaskBit(k, b % 32);
      }
    }

    method UnsetBlock(bit: nat)
      requires Valid() && bit < 32 * memoryMap.Length
      modifies memoryMap
      ensures Used() == old(Used()) - {bit}
      ensures memoryMap[..] == old(memoryMap[..])[bit / 32 :=
                old(if IsUsed(bit) then memoryMap[bit / 32] - Pow2(bit % 32) else memoryMap[bit / 32])]
    {
      var w, k := bit / 32, bit % 32;
      AndNotMask(memoryMap[w], k);
      memoryMap[w] := AndNot(memoryMap[w], Pow2(k));
      forall b: nat | b < 32 * memoryMap.Length
        ensures IsUsed(b) == (b != bit && old(IsUsed(b)))
      {
        AndNotBit(old(memoryMap[w]), Pow2(k), b % 32);
        MaskBit(k, b % 32);
      }
    }

    /** First fit with a skip over full words: the result is the lowest free run, or -1 iff there is none. */
    method FindFreeBlocks(numBlocks: uint32) returns (r: int)
      requires Valid()
      ensures numBlocks == 0 ==> r == -1
      ensures numBlocks > 0 && HasFreeRun(Used(), maxBlocks, numBlocks) ==>
                r >= 0 && FirstFit(Used(), maxBlocks, r, numBlocks)
      ensures numBlocks > 0 && !HasFreeRun(Used(), maxBlocks, numBlocks) ==> r == -1
    {
      if numBlocks <= 0 {
        return -1;
      }
      var count, i := 0, 0;
      while i < maxBlocks
        invariant 0 <= count <= i <= 32 * memoryMap.Length && count < numBlocks
        invariant forall b: nat | i - count <= b < i :: !IsUsed(b)
        invariant count == i || IsUsed(i - count - 1)
        invariant forall s: nat | s + numBlocks <= i :: !FreeRun(Used(), maxBlocks, s, numBlocks)
        decreases maxBlocks - i
      {
        var holder := memoryMap[i / 32];
        if holder == WORD_MAX {
          count := 0;
          ghost var next := (i / 32 + 1) * 32;
          assert next == 32 * (i / 32) + 32;
          forall b: nat | i <= b < next ensures IsUsed(b) {
            Pow2At32();
            assert b / 32 == i / 32;
            AllOnes(32, b % 32);
          }
          forall s: nat | s + numBlocks <= next ensures !FreeRun(Used(), maxBlocks, s, numBlocks) {
            RunEndsBefore(s, numBlocks, i, next);
          }
          i := ((i / 32 + 1) * 32) - 1;
        } else if !IsUsed(i) {
          count := count + 1;
          if count == numBlocks {
            r := i - numBlocks + 1;
            assert FreeRun(Used(), maxBlocks, r, numBlocks);
            return;
          }
          forall s: nat | s + numBlocks <= i + 1 ensures !FreeRun(Used(), maxBlocks, s, numBlocks) {
            if s + numBlocks == i + 1 {
              assert i - count in Used();
            }
          }
        } else {
          count := 0;
          forall s: nat | s + numBlocks <= i + 1 ensures !FreeRun(Used(), maxBlocks, s, numBlocks) {
            RunEndsBefore(s, numBlocks, i, i + 1);
          }
        }
        i := i + 1;
      }
      return -1;
    }

    /** A free run cannot end inside a stretch of used blocks. */
    lemma RunEndsBefore(s: nat, n: nat, lo: nat, hi: nat)
      requires Valid() && n > 0 && hi <= 32 * memoryMap.Length && s + n <= hi
      requires forall b: nat | lo <= b < hi :: IsUsed(b)
      requires s + n <= lo ==> !FreeRun(Used(), maxBlocks, s, n)
      ensures !FreeRun(Used(), maxBlocks, s, n)
    {
      if s + n > lo && s + n <= maxBlocks {
        assert s + n - 1 in Used();
      }
    }

    /** Marks the first fit as used and returns its address, or 0. */
    method AllocateBlocks(numBlocks: uint32) returns (address: uint32)
      requires Valid()
      modifies this`usedBlocks, memoryMap
      ensures Valid() && address % BLOCK_SIZE == 0
      ensures old(numBlocks == 0 || !HasFreeRun(Used(), maxBlocks, numBlocks)) ==>
                address == 0 && Used() == old(Used()) && usedBlocks == old(usedBlocks)
      ensures old(numBlocks > 0 && HasFreeRun(Used(), maxBlocks, numBlocks)) ==>
                && FirstFit(old(Used()), maxBlocks, address / BLOCK_SIZE, numBlocks)
                && Used() == old(Used()) + Blocks(address / BLOCK_SIZE, numBlocks)
                && usedBlocks == Add32(old(usedBlocks), numBlocks)
      ensures address == 0 <==>
                old(numBlocks == 0 || !HasFreeRun(Used(), maxBlocks, numBlocks)
                    || FreeRun(Used(), maxBlocks, 0, numBlocks))
    {
      hide Bit, Pow2;
      var start := FindFreeBlocks(numBlocks);
      if start == -1 {
        return 0;
      }
      for i := 0 to numBlocks
        invariant usedBlocks == old(usedBlocks)
        invariant Used() == old(Used()) + Blocks(start, i)
      {
        SetBlock(start + i);
      }
      usedBlocks := Add32(usedBlocks, numBlocks);
      address := start * BLOCK_SIZE;
      FirstFitUnique(old(Used()), maxBlocks, start, start, numBlocks);
    }

    method FreeBlocks(bit: nat, numBlocks: uint32)
      requires Valid() && bit + numBlocks <= maxBlocks
      modifies this`usedBlocks, memoryMap
      ensures Valid() && Used() == old(Used()) - Blocks(bit, numBlocks)
      ensures usedBlocks == Sub32(old(usedBlocks), numBlocks)
    {
      hide Bit, Pow2;
      for i := 0 to numBlocks
        invariant usedBlocks == old(usedBlocks)
        invariant Used() == old(Used()) - Blocks(bit, i)
      {
        UnsetBlock(bit + i);
      }
      usedBlocks := Sub32(usedBlocks, numBlocks);
    }

    /** Frees the whole blocks of an available region. Block 0 is marked used again, without being counted. */
    method InitializeMemoryRegion(baseAddress: uint32, size: uint32)
      requires Valid() && maxBlocks > 0 && baseAddress / BLOCK_SIZE + size / BLOCK_SIZE <= 32 * memoryMap.Length
      modifies this`usedBlocks, memoryMap
      ensures Valid()
      ensures Used() == if size / BLOCK_SIZE == 0 then old(Used())
                        else old(Used()) - Blocks(baseAddress / BLOCK_SIZE, size / BLOCK_SIZE) + {0}
      ensures usedBlocks == Sub32(old(usedBlocks), size / BLOCK_SIZE)
    {
      hide Bit, Pow2;
      var align, numBlocks := baseAddress / BLOCK_SIZE, size / BLOCK_SIZE;
      if numBlocks == 0 {
        return;
      }
      ghost var first, n := align, numBlocks;
      while numBlocks > 0
        invariant 0 <= numBlocks <= n && align + numBlocks == first + n
        invariant Used() == old(Used()) - Blocks(first, align - first)
        invariant usedBlocks == Sub32(old(usedBlocks), align - first)
      {
        UnsetBlock(align);
        BlocksStep(first, align - first);
        align := align + 1;
        Sub32Step(old(usedBlocks), align - first - 1);
        usedBlocks := Sub32(usedBlocks, 1);
        numBlocks := numBlocks - 1;
      }
      SetBlock(0);
    }

    /** Marks the whole blocks of a region as used and counts each of them, used before or not. */
    method DeinitMemoryRegion(baseAddress: uint32, size: uint32)
      requires Valid() && baseAddress / BLOCK_SIZE + size / BLOCK_SIZE <= maxBlocks
      modifies this`usedBlocks, memoryMap
      ensures Valid() && Used() == old(Used()) + Blocks(baseAddress / BLOCK_SIZE, size / BLOCK_SIZE)
      ensures usedBlocks == Add32(old(usedBlocks), size / BLOCK_SIZE)
    {
      hide Bit, Pow2;
      var align, numBlocks := baseAddress / BLOCK_SIZE, size / BLOCK_SIZE;
      ghost var first, n := align, numBlocks;
      while numBlocks > 0
        invariant 0 <= numBlocks <= n && align + numBlocks == first + n
        invariant Used() == old(Used()) + Blocks(first, align - first)
        invariant usedBlocks == Add32(old(usedBlocks), align - first)
      {
        SetBlock(align);
        BlocksStep(first, align - first);
        align := align + 1;
        Add32Step(old(usedBlocks), align - first - 1);
        usedBlocks := Add32(usedBlocks, 1);
        numBlocks := numBlocks - 1;
      }
    }

    /** Every block starts out used. */
    method InitializePmm()
      requires memoryMap.Length == 0x8000
      modifies this, memoryMap
      ensures Valid() && maxBlocks == MAX_BLOCKS && Used() == Blocks(0, MAX_BLOCKS)
      ensures usedBlocks == Add32(old(usedBlocks), MAX_BLOCKS)
    {
      maxBlocks := WORD_MAX / BLOCK_SIZE;
      DeinitMemoryRegion(0, WORD_MAX);
    }
  }
}
