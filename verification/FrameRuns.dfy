/** Taking and giving back frames, over every run: what the counter says about the bitmap. */
module FrameRuns {
  import opened Bitwise
  import opened PhysicalMemory

  datatype FrameOp = Take(count: uint32) | GiveBack(bit: nat, count: uint32)

  datatype Frames = Frames(used: set<nat>, counter: uint32) {
    ghost function Error(): uint32 { Drift(counter, used) }
  }

  ghost predicate FrameStep(f: Frames, op: FrameOp, g: Frames, limit: nat) {
    match op
    case Take(n) =>
      if n > 0 && HasFreeRun(f.used, limit, n)
      then exists s: nat :: FirstFit(f.used, limit, s, n) && g == Frames(f.used + Blocks(s, n), Add32(f.counter, n))
      else g == f
    case GiveBack(bit, n) =>
      bit + n <= limit && g == Frames(f.used - Blocks(bit, n), Sub32(f.counter, n))
  }

  ghost predicate FrameRun(trace: seq<Frames>, ops: seq<FrameOp>, limit: nat) {
    |trace| == |ops| + 1 && forall i | 0 <= i < |ops| :: FrameStep(trace[i], ops[i], trace[i + 1], limit)
  }

  /** How many of the blocks given back were not in use. */
  ghost function Unused(f: Frames, op: FrameOp): nat {
    if op.GiveBack? then |Blocks(op.bit, op.count) - f.used| else 0
  }

  ghost function AllUnused(trace: seq<Frames>, ops: seq<FrameOp>, j: nat): nat
    requires |trace| == |ops| + 1 && j <= |ops|
  {
    if j == 0 then 0 else AllUnused(trace, ops, j - 1) + Unused(trace[j - 1], ops[j - 1])
  }

  lemma GiveBackError(used: set<nat>, bit: nat, n: uint32, counter: uint32)
    ensures Drift(Sub32(counter, n), used - Blocks(bit, n))
         == (Drift(counter, used) - |Blocks(bit, n) - used|) % 0x1_0000_0000
  {
    hide Blocks;
    BlocksCount(bit, n);
    var given := Blocks(bit, n);
    assert used == (used - given) + used * given && given == used * given + (given - used);
    SameError(counter, n, |used - given|, |used|, |given - used|);
  }

  lemma SameError(counter: int, n: int, left: int, before: int, unused: int)
    requires left == before - (n - unused)
    ensures ((counter - n) % 0x1_0000_0000 - left) % 0x1_0000_0000
         == ((counter - before) % 0x1_0000_0000 - unused) % 0x1_0000_0000
  {
    ModMinus(counter - n, left);
    ModMinus(counter - before, unused);
    assert counter - n - left == counter - before - unused;
  }

  lemma StepError(f: Frames, op: FrameOp, g: Frames, limit: nat)
    requires FrameStep(f, op, g, limit)
    ensures g.Error() == (f.Error() - Unused(f, op)) % 0x1_0000_0000
  {
    hide Drift, FirstFit, HasFreeRun;
    match op {
      case Take(n) =>
        if n > 0 && HasFreeRun(f.used, limit, n) {
          var s: nat :| FirstFit(f.used, limit, s, n) && g == Frames(f.used + Blocks(s, n), Add32(f.counter, n));
          FitKeepsDrift(f.used, limit, s, n, f.counter);
        }
      case GiveBack(bit, n) =>
        GiveBackError(f.used, bit, n, f.counter);
    }
  }

  /** In every state of every run the counter's error is what it was, less the blocks given back that were not in
      use. */
  lemma {:induction false} ErrorOfRun(trace: seq<Frames>, ops: seq<FrameOp>, limit: nat, j: nat)
    requires FrameRun(trace, ops, limit) && j <= |ops|
    ensures trace[j].Error() == (trace[0].Error() - AllUnused(trace, ops, j)) % 0x1_0000_0000
  {
    hide FrameStep, Frames.Error, Unused;
    if j > 0 {
      ErrorOfRun(trace, ops, limit, j - 1);
      StepError(trace[j - 1], ops[j - 1], trace[j], limit);
      ModMinus(trace[0].Error() - AllUnused(trace, ops, j - 1), Unused(trace[j - 1], ops[j - 1]));
    }
  }

  lemma {:induction false} UsedInLimit(trace: seq<Frames>, ops: seq<FrameOp>, limit: nat, j: nat)
    requires FrameRun(trace, ops, limit) && j <= |ops| && trace[0].used <= Blocks(0, limit)
    ensures trace[j].used <= Blocks(0, limit)
  {
    if j > 0 {
      UsedInLimit(trace, ops, limit, j - 1);
      assert FrameStep(trace[j - 1], ops[j - 1], trace[j], limit);
    }
  }

  /** From a right counter, a state has a right counter iff the number of blocks given back that were not in use is 0,
      or another multiple of 2^32. */
  lemma CounterStaysRight(trace: seq<Frames>, ops: seq<FrameOp>, limit: nat, j: nat)
    requires FrameRun(trace, ops, limit) && j <= |ops| && limit <= 0x10_0000 && trace[0].used <= Blocks(0, limit)
    requires trace[0].counter == |trace[0].used|
    ensures trace[j].counter == |trace[j].used| <==> AllUnused(trace, ops, j) % 0x1_0000_0000 == 0
  {
    hide FrameStep, Drift, Blocks;
    UsedInLimit(trace, ops, limit, j);
    DriftIsZero(trace[0].counter, trace[0].used, limit);
    DriftIsZero(trace[j].counter, trace[j].used, limit);
    ErrorOfRun(trace, ops, limit, j);
    NegativeIsZero(AllUnused(trace, ops, j));
  }

  lemma NegativeIsZero(n: nat)
    ensures (0 - n) % 0x1_0000_0000 == 0 <==> n % 0x1_0000_0000 == 0
  {
  }

  /** Any list of calls of the allocator, whose blocks to give back exist, is such a run. */
  method RunFrames(pmm: FrameAllocator, ops: seq<FrameOp>) returns (ghost trace: seq<Frames>)
    requires pmm.Valid() && forall op | op in ops && op.GiveBack? :: op.bit + op.count <= pmm.maxBlocks
    modifies pmm`usedBlocks, pmm.memoryMap
    ensures pmm.Valid() && FrameRun(trace, ops, pmm.maxBlocks)
    ensures trace[0] == old(Frames(pmm.Used(), pmm.usedBlocks)) && trace[|ops|] == Frames(pmm.Used(), pmm.usedBlocks)
  {
    hide FirstFit, HasFreeRun, FreeRun;
    trace := [Frames(pmm.Used(), pmm.usedBlocks)];
    for i := 0 to |ops|
      invariant pmm.Valid() && |trace| == i + 1
      invariant trace[0] == old(Frames(pmm.Used(), pmm.usedBlocks)) && trace[i] == Frames(pmm.Used(), pmm.usedBlocks)
      invariant forall k | 0 <= k < i :: FrameStep(trace[k], ops[k], trace[k + 1], pmm.maxBlocks)
    {
      assert ops[i] in ops;
      match ops[i] {
        case Take(n) =>
          var address := pmm.AllocateBlocks(n);
        case GiveBack(bit, n) =>
          pmm.FreeBlocks(bit, n);
      }
      assert FrameStep(trace[i], ops[i], Frames(pmm.Used(), pmm.usedBlocks), pmm.maxBlocks);
      trace := trace + [Frames(pmm.Used(), pmm.usedBlocks)];
    }
  }
}
