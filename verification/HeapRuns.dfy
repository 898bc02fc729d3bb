/** Allocation, freeing and merging on the list of blocks, and what every run of them keeps. */
module HeapRuns {
  import opened Bitwise
  import opened HeapBlocks

  const PAGE_SIZE: nat := 4096

  /** The bytes of the whole pages that hold `size` bytes. */
  function PageBytes(size: nat): nat {
    (size / PAGE_SIZE + (if size % PAGE_SIZE > 0 then 1 else 0)) * PAGE_SIZE
  }

  /** The first free block of at least `need` bytes, or |s|. */
  function FirstFitting(s: seq<Block>, need: nat): (k: nat)
    ensures k <= |s|
    ensures forall i | 0 <= i < k :: !(s[i].free && s[i].size >= need)
    ensures k < |s| ==> s[k].free && s[k].size >= need
  {
    if s == [] then 0
    else if s[0].free && s[0].size >= need then 0
    else 1 + FirstFitting(s[1..], need)
  }

  lemma {:induction false} FirstFittingIs(s: seq<Block>, need: nat, k: nat)
    requires k <= |s| && (k < |s| ==> s[k].free && s[k].size >= need)
    requires forall i | 0 <= i < k :: !(s[i].free && s[i].size >= need)
    ensures FirstFitting(s, need) == k
  {
  }

  /** Cuts a live block of `size` bytes off the front of block k. */
  function Split(s: seq<Block>, k: nat, size: nat): seq<Block>
    requires k < |s| && size + HEADER <= s[k].size
  {
    var b := s[k];
    var rest := Block(b.address + HEADER + size, b.size - size - HEADER, true);
    s[..k] + [Block(b.address, size, false), rest] + s[k + 1..]
  }

  /** `size + sizeof(malloc_node_t)` as a uint32_t. */
  function Need(size: uint32): uint32 { (size + HEADER) % 0x1_0000_0000 }

  /** The sum does not wrap around. */
  predicate Fits(size: uint32) { size + HEADER < 0x1_0000_0000 }

  /** Exactly the requests for which the C code, whose sums are 32 bits wide, keeps the heap tiled. */
  predicate KeepsTiling(s: seq<Block>, hi: nat, size: uint32) {
    var k := FirstFitting(s, Need(size));
    if k == |s| then hi + PageBytes(size) < 0x1_0000_0000
    else s[k].size == Need(size) || Fits(size)
  }

  /** The blocks after an allocation: exact fit, split, or new pages at the end. */
  function AfterMalloc(s: seq<Block>, hi: nat, size: uint32): seq<Block>
    requires size > 0 && KeepsTiling(s, hi, size)
  {
    var k := FirstFitting(s, Need(size));
    if k == |s| then s + [Block(hi, PageBytes(size) - HEADER, false)]
    else if s[k].size == Need(size) then s[k := s[k].(free := false)]
    else Split(s, k, size)
  }

  function EndAfterMalloc(s: seq<Block>, hi: nat, size: uint32): nat {
    if FirstFitting(s, Need(size)) == |s| then hi + PageBytes(size) else hi
  }

  function MallocResult(s: seq<Block>, hi: nat, size: uint32): nat {
    var k := FirstFitting(s, Need(size));
    if k == |s| then hi else s[k].address + HEADER
  }

  /** The least multiple of 4096 that holds the request. */
  lemma PageBytesHold(size: uint32)
    ensures size <= PageBytes(size) < size + 4096 && PageBytes(size) % 4096 == 0
    ensures size > 0 ==> PageBytes(size) >= PAGE_SIZE
    ensures PageBytes(size) < 0x1_0000_0000 ==> Fits(size)
  {
  }

  lemma NeedIsSum(size: uint32)
    ensures Fits(size) ==> Need(size) == size + HEADER
    ensures !Fits(size) ==> Need(size) < HEADER
  {
  }

  /** The three outcomes by the position of the first fit. */
  lemma MallocCases(s: seq<Block>, hi: nat, size: uint32)
    requires size > 0 && KeepsTiling(s, hi, size)
    ensures var k := FirstFitting(s, Need(size));
            && (k == |s| ==>
                  Fits(size) && AfterMalloc(s, hi, size) == s + [Block(hi, PageBytes(size) - HEADER, false)])
            && (k < |s| && s[k].size == Need(size) ==> AfterMalloc(s, hi, size) == s[k := s[k].(free := false)])
            && (k < |s| && s[k].size > Need(size) ==> Fits(size) && AfterMalloc(s, hi, size) == Split(s, k, size))
  {
    hide PageBytes, Fits, Need, Split, FirstFitting;
    PageBytesHold(size);
    NeedIsSum(size);
  }

  lemma ReplaceTiles(s: seq<Block>, k: nat, t: seq<Block>, lo: nat, hi: nat)
    requires Tiles(s, lo, hi) && k < |s|
    requires Tiles(t, s[k].address, s[k].End())
    ensures Tiles(s[..k] + t + s[k + 1..], lo, hi)
  {
    var a, b := s[..k], s[k..];
    assert s == a + b;
    TilesConcat(a, b, lo, hi);
    var mid := lo + TotalBytes(a);
    assert b[0] == s[k] && b[1..] == s[k + 1..];
    TilesSum(t, mid, s[k].End());
    TilesConcat(t, s[k + 1..], mid, hi);
    assert s[..k] + t + s[k + 1..] == a + (t + s[k + 1..]);
    TilesConcat(a, t + s[k + 1..], lo, hi);
  }

  /** An allocation keeps the tiling. */
  lemma MallocTiles(s: seq<Block>, lo: nat, hi: nat, size: uint32)
    requires Tiles(s, lo, hi) && size > 0 && KeepsTiling(s, hi, size)
    ensures Tiles(AfterMalloc(s, hi, size), lo, EndAfterMalloc(s, hi, size))
  {
    hide AfterMalloc, KeepsTiling;
    MallocCases(s, hi, size);
    var k := FirstFitting(s, Need(size));
    if k == |s| {
      var b := Block(hi, PageBytes(size) - HEADER, false);
      TilesSum(s, lo, hi);
      TilesConcat(s, [b], lo, hi + PageBytes(size));
      TilesConcat(s, [], lo, hi);
      assert s + [] == s;
      assert Tiles([b], hi, hi + PageBytes(size)) by {
        assert [b][1..] == [];
      }
    } else if s[k].size == Need(size) {
      var b := s[k].(free := false);
      TilesOrdered(s, lo, hi, k, k);
      OneTile(b);
      ReplaceTiles(s, k, [b], lo, hi);
      assert s[k := b] == s[..k] + [b] + s[k + 1..];
    } else {
      SplitTiles(s, lo, hi, k, size);
    }
  }

  lemma SplitTiles(s: seq<Block>, lo: nat, hi: nat, k: nat, size: nat)
    requires Tiles(s, lo, hi) && k < |s| && 0 < size && size + HEADER < s[k].size
    ensures Tiles(Split(s, k, size), lo, hi)
  {
    var b, c := Split(s, k, size)[k], Split(s, k, size)[k + 1];
    OneTile(c);
    assert [b, c][1..] == [c];
    ReplaceTiles(s, k, [b, c], lo, hi);
  }

  lemma OneTile(b: Block)
    requires b.size > 0
    ensures Tiles([b], b.address, b.End())
  {
    assert [b][1..] == [];
  }

  /** Replacing a free block changes the live blocks by what replaces it. */
  lemma ReplaceLive(s: seq<Block>, k: nat, t: seq<Block>)
    requires k < |s| && s[k].free
    ensures Live(s[..k] + t + s[k + 1..]) == Live(s[..k]) + Live(t) + Live(s[k + 1..])
    ensures Live(s) == Live(s[..k]) + Live(s[k + 1..])
  {
    LiveConcat(s[..k] + t, s[k + 1..]);
    LiveConcat(s[..k], t);
    assert s == s[..k] + ([s[k]] + s[k + 1..]);
    LiveConcat(s[..k], [s[k]] + s[k + 1..]);
    RunsFrom(s[k], s[k + 1..]);
  }

  lemma LiveOf(b: Block)
    requires !b.free
    ensures Live([b]) == [b]
    ensures forall c: Block | c.free :: Live([b, c]) == [b]
  {
    assert [b][1..] == [];
    forall c: Block | c.free
      ensures Live([b, c]) == [b]
    {
      RunsFrom(b, [c]);
      RunsFrom(c, []);
      assert [b, c] == [b] + [c] && [c] == [c] + [];
    }
  }

  /** The block that an allocation gives out. */
  function Given(s: seq<Block>, hi: nat, size: uint32): (b: Block)
    requires size > 0 && KeepsTiling(s, hi, size)
    ensures !b.free
  {
    AfterMalloc(s, hi, size)[FirstFitting(s, Need(size))]
  }

  /** The live blocks after an allocation are the ones before and the new one, in address order. */
  lemma MallocAddsOne(s: seq<Block>, hi: nat, size: uint32)
    requires size > 0 && KeepsTiling(s, hi, size)
    ensures var k, b := FirstFitting(s, Need(size)), Given(s, hi, size);
            var rest := if k < |s| then s[k + 1..] else [];
            && Live(s) == Live(s[..k]) + Live(rest)
            && Live(AfterMalloc(s, hi, size)) == Live(s[..k]) + [b] + Live(rest)
  {
    hide Live, PageBytes, AfterMalloc, KeepsTiling, Need;
    MallocCases(s, hi, size);
    var k, t := FirstFitting(s, Need(size)), AfterMalloc(s, hi, size);
    LiveOf(t[k]);
    if k == |s| {
      assert s[..k] == s && s + [] == s;
      LiveConcat(s, []);
      LiveConcat(s, [t[k]]);
      assert Live(s) == Live(s) + Live([]);
    } else if s[k].size == Need(size) {
      assert t == s[..k] + [t[k]] + s[k + 1..];
      ReplaceLive(s, k, [t[k]]);
    } else {
      ReplaceLive(s, k, [t[k], t[k + 1]]);
    }
  }

  /** The new block starts where the first fit did, or at the old end of the heap. With an exact fit it is that block;
      when a block is cut it is as large as the request and leaves a free one behind it. The request fits behind the
      result iff size + HEADER does not wrap; on the grow path the result is the header, so it only fits in the whole
      block. */
  lemma MallocGivesFirstFit(s: seq<Block>, hi: nat, size: uint32)
    requires size > 0 && KeepsTiling(s, hi, size)
    ensures var k, b, p := FirstFitting(s, Need(size)), Given(s, hi, size), MallocResult(s, hi, size);
            && (k < |s| ==> b.address == s[k].address && p == b.address + HEADER)
            && (k == |s| ==> p == b.address == hi && b.End() == EndAfterMalloc(s, hi, size))
            && (k < |s| && s[k].size == Need(size) ==> b.size == s[k].size)
            && (k < |s| && s[k].size > Need(size) ==>
                  && b.size == size
                  && AfterMalloc(s, hi, size)[k + 1] == Block(b.address + 20 + size, s[k].size - size - 20, true))
            && (p + size <= b.End() <==> Fits(size))
  {
    hide AfterMalloc, KeepsTiling, PageBytes, Need, FirstFitting;
    PageBytesHold(size);
    NeedIsSum(size);
    MallocCases(s, hi, size);
  }

  lemma {:induction false} LiveConcat(a: seq<Block>, b: seq<Block>)
    ensures Live(a + b) == Live(a) + Live(b)
  {
    if a == [] {
      assert a + b == b;
    } else {
      assert (a + b)[1..] == a[1..] + b;
      LiveConcat(a[1..], b);
    }
  }

  datatype HeapState = HeapState(blocks: seq<Block>, end: nat)

  datatype HeapOp = Malloc(size: uint32) | Free(address: nat) | Merge

  /** Marks the block at an address free. */
  function Released(s: seq<Block>, address: nat): (t: seq<Block>)
    ensures |t| == |s|
  {
    if s == [] then []
    else [if s[0].address == address then s[0].(free := true) else s[0]] + Released(s[1..], address)
  }

  predicate HasBlock(s: seq<Block>, address: nat) {
    exists i | 0 <= i < |s| :: s[i].address == address
  }

  /** The operation keeps the heap tiled, sums being 32 bits wide. */
  predicate Possible(h: HeapState, op: HeapOp) {
    op.Malloc? && op.size > 0 ==> KeepsTiling(h.blocks, h.end, op.size)
  }

  /** An allocation and the pass behind it; freeing, with the pass behind that; or a pass alone. */
  function After(h: HeapState, op: HeapOp): HeapState
    requires Possible(h, op)
  {
    match op
    case Malloc(size) =>
      if size == 0 then h.(blocks := MergePass(h.blocks))
      else HeapState(MergePass(AfterMalloc(h.blocks, h.end, size)), EndAfterMalloc(h.blocks, h.end, size))
    case Free(address) =>
      if HasBlock(h.blocks, address) then h.(blocks := MergePass(Released(h.blocks, address))) else h
    case Merge => h.(blocks := MergePass(h.blocks))
  }

  /** What the call returns to its caller. */
  function ResultOf(h: HeapState, op: HeapOp): nat {
    if op.Malloc? && op.size > 0 then MallocResult(h.blocks, h.end, op.size) else 0
  }

  /** How many pages the heap grows by. */
  function PagesFor(h: HeapState, op: HeapOp): nat {
    if op.Malloc? && op.size > 0 && FirstFitting(h.blocks, Need(op.size)) == |h.blocks|
    then PageBytes(op.size) / PAGE_SIZE else 0
  }

  predicate AllPossible(h: HeapState, ops: seq<HeapOp>)
    decreases |ops|
  {
    ops == [] || (Possible(h, ops[0]) && AllPossible(After(h, ops[0]), ops[1..]))
  }

  function AfterAll(h: HeapState, ops: seq<HeapOp>): HeapState
    requires AllPossible(h, ops)
    decreases |ops|
  {
    if ops == [] then h else AfterAll(After(h, ops[0]), ops[1..])
  }

  /** How many pages a run needs. */
  function PagesNeeded(h: HeapState, ops: seq<HeapOp>): nat
    requires AllPossible(h, ops)
    decreases |ops|
  {
    if ops == [] then 0 else PagesFor(h, ops[0]) + PagesNeeded(After(h, ops[0]), ops[1..])
  }

  /** A run can be cut anywhere. */
  lemma {:induction false} RunSplits(h: HeapState, a: seq<HeapOp>, b: seq<HeapOp>)
    ensures AllPossible(h, a + b) <==> AllPossible(h, a) && AllPossible(AfterAll(h, a), b)
    ensures AllPossible(h, a + b) ==> AfterAll(h, a + b) == AfterAll(AfterAll(h, a), b)
    decreases |a|
  {
    hide Possible, After;
    if a == [] {
      assert a + b == b;
    } else {
      assert (a + b)[1..] == a[1..] + b;
      if Possible(h, a[0]) {
        RunSplits(After(h, a[0]), a[1..], b);
      }
    }
  }

  lemma {:induction false} ReleaseTiles(s: seq<Block>, address: nat, lo: nat, hi: nat)
    requires Tiles(s, lo, hi)
    ensures Tiles(Released(s, address), lo, hi)
  {
    if s != [] {
      ReleaseTiles(s[1..], address, s[0].End(), hi);
      assert Released(s, address)[1..] == Released(s[1..], address);
    }
  }

  lemma {:induction false} ReleaseElsewhere(s: seq<Block>, address: nat, lo: nat, hi: nat)
    requires Tiles(s, lo, hi) && address < lo
    ensures Released(s, address) == s
  {
    if s != [] {
      ReleaseElsewhere(s[1..], address, s[0].End(), hi);
    }
  }

  /** Addresses being distinct, exactly one block is marked. */
  lemma {:induction false} ReleaseAt(s: seq<Block>, lo: nat, hi: nat, k: nat)
    requires Tiles(s, lo, hi) && k < |s|
    ensures Released(s, s[k].address) == s[k := s[k].(free := true)]
  {
    if k == 0 {
      ReleaseElsewhere(s[1..], lo, s[0].End(), hi);
    } else {
      TilesOrdered(s, lo, hi, 0, k);
      ReleaseAt(s[1..], s[0].End(), hi, k - 1);
    }
  }

  lemma {:induction false} ReleaseKeepsOthers(s: seq<Block>, address: nat, b: Block)
    requires b in Live(s) && b.address != address
    ensures b in Live(Released(s, address))
  {
    if s != [] {
      assert Released(s, address)[1..] == Released(s[1..], address);
      if s[0].free || s[0] != b {
        ReleaseKeepsOthers(s[1..], address, b);
      }
    }
  }

  lemma StepTiles(h: HeapState, lo: nat, op: HeapOp)
    requires Tiles(h.blocks, lo, h.end) && Possible(h, op)
    ensures Tiles(After(h, op).blocks, lo, After(h, op).end)
  {
    hide AfterMalloc, EndAfterMalloc, KeepsTiling, MergePass, Tiles;
    match op {
      case Malloc(size) =>
        if size == 0 {
          MergeTiles(h.blocks, lo, h.end);
        } else {
          MallocTiles(h.blocks, lo, h.end, size);
          MergeTiles(AfterMalloc(h.blocks, h.end, size), lo, EndAfterMalloc(h.blocks, h.end, size));
        }
      case Free(address) =>
        ReleaseTiles(h.blocks, address, lo, h.end);
        MergeTiles(Released(h.blocks, address), lo, h.end);
      case Merge =>
        MergeTiles(h.blocks, lo, h.end);
    }
  }

  /** Every call makes one merge pass: behind it, runs of free blocks are half as long, rounded up, as the allocation or
      the release left them. */
  lemma OneCallOnePass(h: HeapState, op: HeapOp)
    requires Possible(h, op)
    ensures var s := match op
                     case Malloc(size) => if size == 0 then h.blocks else AfterMalloc(h.blocks, h.end, size)
                     case Free(address) => Released(h.blocks, address)
                     case Merge => h.blocks;
            if op.Free? && !HasBlock(h.blocks, op.address) then After(h, op) == h
            else FreeRuns(After(h, op).blocks) == Halved(FreeRuns(s)) && Live(After(h, op).blocks) == Live(s)
  {
    hide FreeRuns, Halved, MergePass, Released, AfterMalloc, KeepsTiling, HasBlock, Live;
    match op {
      case Malloc(size) =>
        MergeHalvesRuns(if size == 0 then h.blocks else AfterMalloc(h.blocks, h.end, size));
      case Free(address) =>
        MergeHalvesRuns(Released(h.blocks, address));
      case Merge =>
        MergeHalvesRuns(h.blocks);
    }
  }

  /** Freeing a live block takes it, and no other, from the live blocks. */
  lemma FreedIsGone(h: HeapState, lo: nat, k: nat)
    requires Tiles(h.blocks, lo, h.end) && k < |h.blocks| && !h.blocks[k].free
    ensures var s := h.blocks;
            && Live(s) == Live(s[..k]) + [s[k]] + Live(s[k + 1..])
            && Live(After(h, Free(s[k].address)).blocks) == Live(s[..k]) + Live(s[k + 1..])
  {
    hide Live, MergePass, Released, FreeRuns, Halved;
    var s := h.blocks;
    var b := s[k].(free := true);
    ReleaseAt(s, lo, h.end, k);
    OneCallOnePass(h, Free(s[k].address));
    assert HasBlock(s, s[k].address);
    var t := s[k := b];
    assert t[..k] == s[..k] && t[k + 1..] == s[k + 1..] && t == t[..k] + [b] + t[k + 1..];
    ReplaceLive(t, k, [s[k]]);
    assert t[..k] + [s[k]] + t[k + 1..] == s;
    LiveOf(s[k]);
  }

  /** In every state of every run the blocks tile the heap, so headers and payloads add up to its size. */
  lemma {:induction false} AlwaysTiled(h: HeapState, lo: nat, ops: seq<HeapOp>)
    requires Tiles(h.blocks, lo, h.end) && AllPossible(h, ops)
    ensures var g := AfterAll(h, ops); Tiles(g.blocks, lo, g.end) && lo + TotalBytes(g.blocks) == g.end
    decreases |ops|
  {
    hide After, Possible;
    if ops == [] {
      TilesSum(h.blocks, lo, h.end);
    } else {
      StepTiles(h, lo, ops[0]);
      AlwaysTiled(After(h, ops[0]), lo, ops[1..]);
    }
  }

  lemma StepKeepsLive(h: HeapState, op: HeapOp, b: Block)
    requires Possible(h, op) && b in Live(h.blocks) && op != Free(b.address)
    ensures b in Live(After(h, op).blocks)
  {
    hide AfterMalloc, EndAfterMalloc, KeepsTiling, MergePass, Live, HasBlock;
    match op {
      case Malloc(size) =>
        if size == 0 {
          MergeHalvesRuns(h.blocks);
        } else {
          MallocAddsOne(h.blocks, h.end, size);
          MergeHalvesRuns(AfterMalloc(h.blocks, h.end, size));
        }
      case Free(address) =>
        ReleaseKeepsOthers(h.blocks, address, b);
        MergeHalvesRuns(Released(h.blocks, address));
      case Merge =>
        MergeHalvesRuns(h.blocks);
    }
  }

  /** A block given out stays in the list, neither moved nor resized, until it is freed. */
  lemma {:induction false} LiveUntilFreed(h: HeapState, ops: seq<HeapOp>, b: Block)
    requires AllPossible(h, ops) && b in Live(h.blocks) && Free(b.address) !in ops
    ensures b in Live(AfterAll(h, ops).blocks)
    decreases |ops|
  {
    hide After, Possible, Live;
    if ops != [] {
      assert ops[0] in ops;
      StepKeepsLive(h, ops[0], b);
      LiveUntilFreed(After(h, ops[0]), ops[1..], b);
    }
  }

  lemma {:induction false} LiveInList(s: seq<Block>, b: Block)
    requires b in Live(s)
    ensures b in s && !b.free
  {
    if s != [] && (s[0].free || s[0] != b) {
      LiveInList(s[1..], b);
    }
  }

  /** Two live blocks share no byte, header or payload. */
  lemma LiveApart(s: seq<Block>, lo: nat, hi: nat, b: Block, c: Block)
    requires Tiles(s, lo, hi) && b in Live(s) && c in Live(s) && b != c
    ensures b.End() <= c.address || c.End() <= b.address
  {
    LiveInList(s, b);
    LiveInList(s, c);
    var i :| 0 <= i < |s| && s[i] == b;
    var j :| 0 <= j < |s| && s[j] == c;
    if i < j {
      TilesOrdered(s, lo, hi, i, j);
    } else {
      TilesOrdered(s, lo, hi, j, i);
    }
  }

  /** The block that a call gives out, after the merge pass that follows: it was not live before, it has the bytes
      from the result on unless size + HEADER wraps, and no other live block, header or payload, overlaps it. */
  lemma AllocationIsSafe(h: HeapState, lo: nat, size: uint32)
    requires Tiles(h.blocks, lo, h.end) && size > 0 && Possible(h, Malloc(size))
    ensures var b, p := Given(h.blocks, h.end, size), MallocResult(h.blocks, h.end, size);
            var t := After(h, Malloc(size)).blocks;
            && b in Live(t) && b !in Live(h.blocks) && b.address <= p && (p + size <= b.End() <==> Fits(size))
            && forall c | c in Live(t) && c != b :: c.End() <= b.address || b.End() <= c.address
  {
    hide AfterMalloc, EndAfterMalloc, KeepsTiling, MergePass, Live, Tiles, Given, MallocResult, FirstFitting, Need;
    var s, t := h.blocks, AfterMalloc(h.blocks, h.end, size);
    var b, u := Given(s, h.end, size), After(h, Malloc(size));
    MallocAddsOne(s, h.end, size);
    MallocGivesFirstFit(s, h.end, size);
    MergeHalvesRuns(t);
    StepTiles(h, lo, Malloc(size));
    assert b in Live(t);
    WasNotLive(s, lo, h.end, size);
    forall c | c in Live(u.blocks) && c != b
      ensures c.End() <= b.address || b.End() <= c.address
    {
      LiveApart(u.blocks, lo, u.end, b, c);
    }
  }

  lemma WasNotLive(s: seq<Block>, lo: nat, hi: nat, size: uint32)
    requires Tiles(s, lo, hi) && size > 0 && KeepsTiling(s, hi, size)
    ensures Given(s, hi, size) !in Live(s)
  {
    hide AfterMalloc, KeepsTiling, Live, Given, Need, MallocResult, EndAfterMalloc;
    var k, b := FirstFitting(s, Need(size)), Given(s, hi, size);
    MallocGivesFirstFit(s, hi, size);
    if b in Live(s) {
      LiveInList(s, b);
      var i :| 0 <= i < |s| && s[i] == b;
      TilesOrdered(s, lo, hi, i, i);
      if i < k && k < |s| {
        TilesOrdered(s, lo, hi, i, k);
      } else if k < i {
        TilesOrdered(s, lo, hi, k, i);
      }
    }
  }

  /** Freeing a block right after it was given out leaves the live blocks as they were before. */
  lemma FreeUndoesMalloc(h: HeapState, lo: nat, size: uint32)
    requires Tiles(h.blocks, lo, h.end) && size > 0 && Possible(h, Malloc(size))
    ensures var b := Given(h.blocks, h.end, size);
            Live(After(After(h, Malloc(size)), Free(b.address)).blocks) == Live(h.blocks)
  {
    hide After, Live, Tiles, Given, KeepsTiling, AfterMalloc, FirstFitting, Need, Halved, FreeRuns, EndAfterMalloc;
    var s, b, g := h.blocks, Given(h.blocks, h.end, size), After(h, Malloc(size));
    var k := FirstFitting(s, Need(size));
    AllocationIsSafe(h, lo, size);
    StepTiles(h, lo, Malloc(size));
    LiveInList(g.blocks, b);
    var i :| 0 <= i < |g.blocks| && g.blocks[i] == b;
    FreedIsGone(g, lo, i);
    OneCallOnePass(h, Malloc(size));
    MallocAddsOne(s, h.end, size);
    SameAround(Live(g.blocks[..i]), Live(g.blocks[i + 1..]), Live(s[..k]), Live(if k < |s| then s[k + 1..] else []), b);
  }

  lemma SameAround(a: seq<Block>, c: seq<Block>, x: seq<Block>, y: seq<Block>, b: Block)
    requires a + [b] + c == x + [b] + y && b !in x + y
    ensures a + c == x + y
  {
    var all := a + [b] + c;
    assert all[|a|] == b && all[|x|] == b;
    assert |a| == |x|;
    assert a == all[..|a|] && x == all[..|x|];
    assert c == all[|a| + 1..] && y == all[|x| + 1..];
  }

  /** The state in which operation i of a run is made. */
  function StateAt(h: HeapState, ops: seq<HeapOp>, i: nat): (g: HeapState)
    requires AllPossible(h, ops) && i <= |ops|
    ensures AllPossible(h, ops[..i]) && (i < |ops| ==> Possible(g, ops[i]))
  {
    assert ops == ops[..i] + ops[i..];
    RunSplits(h, ops[..i], ops[i..]);
    AfterAll(h, ops[..i])
  }

  lemma NextState(h: HeapState, ops: seq<HeapOp>, i: nat)
    requires AllPossible(h, ops) && i < |ops|
    ensures StateAt(h, ops, i + 1) == After(StateAt(h, ops, i), ops[i])
  {
    hide Possible, After;
    RunSplits(h, ops[..i + 1], ops[i + 1..]);
    assert ops == ops[..i + 1] + ops[i + 1..] && ops[..i + 1] == ops[..i] + [ops[i]];
    RunSplits(h, ops[..i], [ops[i]]);
    assert [ops[i]][1..] == [];
  }

  /** A run made one operation longer. */
  lemma OneMoreDone(h: HeapState, ops: seq<HeapOp>, n: nat)
    requires n < |ops| && AllPossible(h, ops[..n]) && Possible(AfterAll(h, ops[..n]), ops[n])
    ensures AllPossible(h, ops[..n + 1])
    ensures AfterAll(h, ops[..n + 1]) == After(AfterAll(h, ops[..n]), ops[n])
    ensures StateAt(h, ops[..n + 1], n) == AfterAll(h, ops[..n])
    ensures forall i | 0 <= i < n :: StateAt(h, ops[..n + 1], i) == StateAt(h, ops[..n], i)
  {
    hide Possible, After;
    assert ops[..n + 1] == ops[..n] + [ops[n]] && [ops[n]][1..] == [];
    RunSplits(h, ops[..n], [ops[n]]);
    assert ops[..n + 1][..n] == ops[..n];
    forall i | 0 <= i < n
      ensures ops[..n + 1][..i] == ops[..n][..i]
    {
    }
  }

  /** From one state of a run to a later one. */
  lemma StateLater(h: HeapState, ops: seq<HeapOp>, i: nat, j: nat)
    requires AllPossible(h, ops) && i <= j <= |ops|
    ensures AllPossible(StateAt(h, ops, i), ops[i..j])
    ensures StateAt(h, ops, j) == AfterAll(StateAt(h, ops, i), ops[i..j])
  {
    hide AllPossible, AfterAll;
    assert ops == ops[..j] + ops[j..] && ops[..j] == ops[..i] + ops[i..j];
    RunSplits(h, ops[..j], ops[j..]);
    RunSplits(h, ops[..i], ops[i..j]);
  }

  /** The bytes that two allocations of a run give out are apart, unless the first was freed in between or a request
      of 4 GB less a header went unserved. */
  lemma ResultsApart(h: HeapState, lo: nat, ops: seq<HeapOp>, i: nat, j: nat)
    requires Tiles(h.blocks, lo, h.end) && AllPossible(h, ops) && i < j < |ops|
    requires ops[i].Malloc? && ops[i].size > 0 && ops[j].Malloc? && ops[j].size > 0
    requires var g := StateAt(h, ops, i); Free(Given(g.blocks, g.end, ops[i].size).address) !in ops[i + 1..j]
    requires Fits(ops[i].size) && Fits(ops[j].size)
    ensures var g, f := StateAt(h, ops, i), StateAt(h, ops, j);
            var p, q := MallocResult(g.blocks, g.end, ops[i].size), MallocResult(f.blocks, f.end, ops[j].size);
            p + ops[i].size <= q || q + ops[j].size <= p
  {
    hide After, AllPossible, AfterAll, Live, Tiles, Given, MallocResult, Fits, KeepsTiling, StateAt;
    var g, f := StateAt(h, ops, i), StateAt(h, ops, j);
    StateTiled(h, lo, ops, i);
    StateTiled(h, lo, ops, j);
    AllocationIsSafe(g, lo, ops[i].size);
    NextState(h, ops, i);
    StateLater(h, ops, i + 1, j);
    var b := Given(g.blocks, g.end, ops[i].size);
    LiveUntilFreed(StateAt(h, ops, i + 1), ops[i + 1..j], b);
    AllocationIsSafe(f, lo, ops[j].size);
    StepKeepsLive(f, ops[j], b);
  }

  lemma StateTiled(h: HeapState, lo: nat, ops: seq<HeapOp>, i: nat)
    requires Tiles(h.blocks, lo, h.end) && AllPossible(h, ops) && i <= |ops|
    ensures Tiles(StateAt(h, ops, i).blocks, lo, StateAt(h, ops, i).end)
  {
    var g := StateAt(h, ops, i);
    AlwaysTiled(h, lo, ops[..i]);
  }

  /** The heap that the first call of a program sets up. */
  function FreshHeap(head: nat): HeapState {
    HeapState([Block(head, 0x10_0000 - HEADER, true)], head + 0x10_0000)
  }

  /** Exactly the requests that a fresh heap serves: the sum must not wrap, and the block or the address space must
      have room. A request for 0xFFFF_FFFF bytes, for one, breaks it. */
  lemma FreshKeepsTiling(head: nat, size: uint32)
    requires size > 0
    ensures var h := FreshHeap(head);
            KeepsTiling(h.blocks, h.end, size) <==>
              Fits(size) && (size + 2 * HEADER <= 0x10_0000 || head + 0x10_0000 + PageBytes(size) < 0x1_0000_0000)
    ensures !Possible(FreshHeap(head), Malloc(0xFFFF_FFFF))
  {
    var s := FreshHeap(head).blocks;
    assert s[1..] == [];
    assert FirstFitting(s, Need(size)) == if Need(size) + HEADER <= 0x10_0000 then 0 else 1;
    assert FirstFitting(s, Need(0xFFFF_FFFF)) == 0;
  }

  /** The first request that cuts the fresh heap, headers of 20 bytes included: what it returns, and what is left. */
  lemma FirstAllocation(head: nat, size: uint32)
    requires 0 < size && size + 40 <= 0x10_0000
    ensures var h := FreshHeap(head);
            && Possible(h, Malloc(size)) && ResultOf(h, Malloc(size)) == head + 20
            && After(h, Malloc(size)).blocks
               == if size + 40 == 0x10_0000 then [Block(head, 0x10_0000 - 20, false)]
                  else [Block(head, size, false), Block(head + 20 + size, 0x10_0000 - 40 - size, true)]
  {
    var s := FreshHeap(head).blocks;
    assert s[1..] == [];
    FreshKeepsTiling(head, size);
    assert FirstFitting(s, Need(size)) == 0;
    var t := AfterMalloc(s, head + 0x10_0000, size);
    if size + 40 < 0x10_0000 {
      assert t == [Block(head, size, false), Block(head + 20 + size, 0x10_0000 - 40 - size, true)];
      assert t[1..] == [t[1]] && MergePass([t[1]]) == [t[1]];
    }
  }

  /** For one: 100 bytes of a heap at 4 MB. */
  lemma HundredBytes()
    ensures var h := FreshHeap(0x40_0000);
            && Possible(h, Malloc(100)) && ResultOf(h, Malloc(100)) == 0x40_0014
            && After(h, Malloc(100)).blocks
               == [Block(0x40_0000, 100, false), Block(0x40_0078, 0x10_0000 - 140, true)]
  {
    FirstAllocation(0x40_0000, 100);
  }

  /** A second request that fits with two headers is possible without new pages. */
  lemma SecondCallFits(head: nat, second: uint32)
    requires second > 0
    ensures var h := FreshHeap(head);
            second + 2 * HEADER <= 0x10_0000 ==> Possible(h, Malloc(second)) && PagesFor(h, Malloc(second)) == 0
  {
    var s := FreshHeap(head).blocks;
    assert s[1..] == [];
    FreshKeepsTiling(head, second);
  }

  /** The first call returns the payload of a block that stays free, whatever was asked for; the second returns the
      same address iff its request and two headers fit in that block. */
  lemma SecondCallRepeats(head: nat, first: uint32, second: uint32)
    requires second > 0 && Possible(FreshHeap(head), Malloc(second))
    ensures var h := FreshHeap(head); var p, q := head + HEADER, MallocResult(h.blocks, h.end, second);
            && (p + first <= h.end <==> first <= 0x10_0000 - HEADER)
            && (q == p <==> second + 2 * HEADER <= 0x10_0000)
            && (p + first <= q || q + second <= p <==>
                  first == 0 || (second + 2 * HEADER > 0x10_0000 && first <= 0x10_0000 - HEADER))
  {
    var s := FreshHeap(head).blocks;
    assert s[1..] == [];
    FreshKeepsTiling(head, second);
    assert FirstFitting(s, Need(second)) == if Need(second) + HEADER <= 0x10_0000 then 0 else 1;
  }
}
