/** What the header writes of the allocator do to the list, sums being 32 bits wide. */
module HeapWrites {
  import opened Bitwise
  import opened PhysicalMemory
  import opened PageTables
  import opened PagingRuns
  import opened PageRanges
  import opened HeapBlocks
  import opened HeapRuns
  import opened HeapNodes
  import opened HeapMemory

  /** Every request of the run keeps the tiling, and supplies are there for all the pages that they need. */
  ghost predicate Provided(v: View, limit: nat, h: HeapState, ops: seq<HeapOp>) {
    AllPossible(h, ops) && Supply(v, limit, h.end, PagesNeeded(h, ops))
  }

  lemma StillProvided(v: View, w: View, limit: nat, lo: nat, h: HeapState, ops: seq<HeapOp>, hi: nat, intact: bool)
    requires ops != [] && Provided(v, limit, h, ops)
    requires Foretold(v, w, limit, lo, h.end, hi, PagesFor(h, ops[0]), Possible(h, ops[0]), intact)
    requires intact && Possible(h, ops[0]) ==> hi == After(h, ops[0]).end
    ensures intact && Possible(h, ops[0]) && Provided(w, limit, After(h, ops[0]), ops[1..])
  {
    hide Supply, Possible, After, RoomForTables, GoodFit;
  }

  lemma OnlyMallocFails(h: HeapState, op: HeapOp)
    ensures !op.Malloc? ==> Possible(h, op) && ResultOf(h, op) == 0 && PagesFor(h, op) == 0
    ensures op == Merge ==> After(h, op) == h.(blocks := MergePass(h.blocks))
  {
  }

  lemma PagesAre(size: uint32, pages: nat)
    requires pages == size / PAGE_SIZE + (if size % PAGE_SIZE > 0 then 1 else 0)
    ensures pages * PAGE_SIZE == PageBytes(size) && pages == PageBytes(size) / PAGE_SIZE && pages <= PAGES
    ensures size > 0 ==> pages > 0
  {
  }

  /** The node of block k and where it leads. */
  lemma HeadOfList(nodes: Nodes, head: nat, hi: nat, s: seq<Block>, k: nat)
    requires TiledBy(nodes, head, hi, s) && k < |s|
    ensures var a := s[k].address;
            && a in nodes && a != 0 && nodes[a].size == s[k].size && nodes[a].free == s[k].free
            && nodes[a].next == (if k + 1 < |s| then s[k + 1].address else 0)
            && (nodes[a].address == a || nodes[a].address == a + HEADER)
            && (k == 0 ==> head == a) && s[k].size > 0 && s[k].End() <= hi
  {
    SpellsParts(nodes, head, hi, s, k);
    if k == 0 {
      assert s[..0] == [];
    }
  }

  lemma NothingLeft(s: seq<Block>, k: nat)
    requires k <= |s| <= k + 1
    ensures s[..k] + MergePass(s[k..]) == s
  {
  }

  lemma TwoFit(nodes: Nodes, s: seq<Block>, lo: nat, hi: nat, k: nat)
    requires TiledBy(nodes, lo, hi, s) && k + 1 < |s|
    ensures s[k].size + s[k + 1].size + HEADER <= hi
  {
    TilesOrdered(s, lo, hi, k, k + 1);
  }

  lemma EmptyRange(v: View, dir: nat, page: nat, frame: nat, limit: nat)
    requires Separate(v, dir) && page <= PAGES && frame <= PAGES
    ensures RangeStep(v, v, page, frame, 0, USER_PAGE, limit)
  {
  }

  lemma Add32Twice(a: uint32, b: nat, c: nat)
    ensures Add32(Add32(a, b), c) == Add32(a, b + c)
  {
    ModMinus(a + b, 0 - c as int);
  }

  /** Without wrap-around the i-th page and frame are i further on. */
  lemma NextPage(physAddress: uint32, virtAddress: uint32, i: nat)
    requires physAddress % 4096 == 0
    ensures virtAddress / 4096 + i < PAGES ==> Add32(virtAddress, i * 4096) / 4096 == virtAddress / 4096 + i
    ensures physAddress / 4096 + i < PAGES ==>
              Entry(Add32(physAddress, i * 4096), USER_PAGE) == (physAddress / 4096 + i) * 4096 + USER_PAGE
  {
    hide Or;
  }

  /** What appending a node for `size` bytes in whole pages does to the list, with or without wrap-around. */
  lemma Appended(nodes: Nodes, head: nat, hi: nat, s: seq<Block>, size: uint32, end: nat, nodes': Nodes)
    requires TiledBy(nodes, head, hi, s) && |s| > 0 && hi < 0x1_0000_0000
    requires end == Add32(hi, PageBytes(size)) && s[|s| - 1].address in nodes
    requires var last := s[|s| - 1].address;
             nodes' == nodes[hi := Node(Sub32(Add32(0, PageBytes(size)), HEADER), false, 0, hi)]
                            [last := nodes[last].(next := hi)]
    ensures size > 0 && hi + PageBytes(size) < 0x1_0000_0000 ==>
              && PageBytes(size) > HEADER && end == hi + PageBytes(size)
              && Sub32(Add32(0, PageBytes(size)), HEADER) == PageBytes(size) - HEADER
              && TiledBy(nodes', head, end, s + [Block(hi, PageBytes(size) - HEADER, false)])
    ensures !(size > 0 && hi + PageBytes(size) < 0x1_0000_0000) ==> !IsTiled(nodes', head, end)
    ensures hi in nodes' && nodes'[hi].next == 0 && nodes'[hi].address == hi
    ensures Linked(nodes', s, hi)
  {
    hide PageBytes, Add32, Sub32, TiledBy, IsTiled, Linked;
    var bytes := Sub32(Add32(0, PageBytes(size)), HEADER);
    PageSums(hi, size);
    AppendNode(nodes, head, hi, s, bytes, nodes');
    AppendLinks(nodes, head, hi, s, nodes', bytes);
    if !(size > 0 && hi + PageBytes(size) < 0x1_0000_0000) {
      PastTheEnd(nodes, head, hi, s, end, nodes');
    }
  }

  lemma PastTheEnd(nodes: Nodes, head: nat, hi: nat, s: seq<Block>, end: nat, nodes': Nodes)
    requires TiledBy(nodes, head, hi, s) && Spells(nodes', head, s, hi)
    requires hi in nodes' && hi + HEADER + nodes'[hi].size > end
    ensures !IsTiled(nodes', head, end)
  {
    TilesSum(s, head, hi);
    NotTiled(nodes', head, end, s, hi, hi);
  }

  /** The sums of the grow path: right below 4 GB, and past the new end when they wrap around. */
  lemma PageSums(hi: uint32, size: uint32)
    ensures size > 0 && hi + PageBytes(size) < 0x1_0000_0000 ==>
              && PageBytes(size) > HEADER && Add32(hi, PageBytes(size)) == hi + PageBytes(size)
              && Sub32(Add32(0, PageBytes(size)), HEADER) == PageBytes(size) - HEADER
    ensures !(size > 0 && hi + PageBytes(size) < 0x1_0000_0000) ==>
              hi + HEADER + Sub32(Add32(0, PageBytes(size)), HEADER) > Add32(hi, PageBytes(size))
    ensures Sub32(Add32(0, PageBytes(size)), HEADER) > 0
  {
    var b := PageBytes(size);
    assert b % 4096 == 0 && b <= 0x1_0000_0000;
    assert size > 0 ==> b >= 4096;
  }

  lemma AppendLinks(nodes: Nodes, head: nat, hi: nat, s: seq<Block>, nodes': Nodes, bytes: uint32)
    requires TiledBy(nodes, head, hi, s) && |s| > 0 && hi < 0x1_0000_0000 && s[|s| - 1].address in nodes
    requires var last := s[|s| - 1].address;
             nodes' == nodes[hi := Node(bytes, false, 0, hi)][last := nodes[last].(next := hi)]
    ensures hi in nodes' && nodes'[hi] == Node(bytes, false, 0, hi) && Linked(nodes', s, hi)
  {
    forall i | 0 <= i < |s|
      ensures s[i].address in nodes && s[i].address < hi && (i < |s| - 1 ==> s[i].address != s[|s| - 1].address)
      ensures nodes[s[i].address].address == s[i].address || nodes[s[i].address].address == s[i].address + HEADER
      ensures nodes[s[i].address].next == (if i + 1 < |s| then s[i + 1].address else 0)
    {
      HeadOfList(nodes, head, hi, s, i);
      TilesOrdered(s, head, hi, i, |s| - 1);
    }
  }

  lemma AddressesBelow(nodes: Nodes, head: nat, hi: nat, s: seq<Block>)
    requires TiledBy(nodes, head, hi, s)
    ensures forall i | 0 <= i < |s| :: 0 < s[i].address && s[i].address + HEADER < hi
    ensures |s| > 0 ==> head == s[0].address
  {
    forall i | 0 <= i < |s|
      ensures 0 < s[i].address && s[i].address + HEADER < hi
    {
      HeadOfList(nodes, head, hi, s, i);
    }
  }

  /** What the split writes do to the list, with or without wrap-around of size + HEADER. */
  lemma SplitEffect(nodes: Nodes, head: nat, hi: nat, s: seq<Block>, k: nat, size: uint32, nodes': Nodes)
    requires TiledBy(nodes, head, hi, s) && k < |s| && hi < 0x1_0000_0000
    requires s[k].size >= Need(size) && s[k].address in nodes && s[k].End() <= hi
    requires var a := s[k].address; var b := Add32(a, size + HEADER);
             nodes' == nodes[b := Node(Sub32(s[k].size, size + HEADER), true, nodes[a].next, Add32(b, HEADER))]
                            [a := Node(size, false, b, Add32(a, HEADER))]
    ensures size > 0 && Fits(size) && s[k].size > Need(size) ==> TiledBy(nodes', head, hi, Split(s, k, size))
    ensures !(size > 0 && Fits(size) && s[k].size > Need(size)) ==> !IsTiled(nodes', head, hi)
  {
    hide TiledBy, IsTiled, Split, Spells, Tiles;
    var a := s[k].address;
    HeadOfList(nodes, head, hi, s, k);
    if !Fits(size) {
      WrappedSum(a, size);
      SplitTooLong(nodes, head, hi, s, k, nodes');
    } else if size == 0 {
      SplitTooLong(nodes, head, hi, s, k, nodes');
    } else if s[k].size == Need(size) {
      RestEmpty(nodes, head, hi, s, k, size, nodes');
    } else {
      SplitNode(nodes, head, hi, s, k, size, nodes');
    }
  }

  lemma WrappedSum(a: uint32, size: uint32)
    requires size + HEADER >= 0x1_0000_0000 && a + HEADER < 0x1_0000_0000
    ensures a <= Add32(a, size + HEADER) < a + HEADER
  {
  }

  lemma SplitTooLong(nodes: Nodes, head: nat, hi: nat, s: seq<Block>, k: nat, nodes': Nodes)
    requires TiledBy(nodes, head, hi, s) && k < |s| && SameBetween(nodes, nodes', head, s[k].address)
    requires s[k].address in nodes'
    requires var size := nodes'[s[k].address].size; size == 0 || s[k].address + HEADER + size > hi
    ensures !IsTiled(nodes', head, hi)
  {
    hide IsTiled;
    var a := s[k].address;
    SpellsParts(nodes, head, hi, s, k);
    SpellsFrame(nodes, nodes', head, s[..k], a, head, a);
    NotTiled(nodes', head, hi, s[..k], a, a);
  }

  /** An exact fit would leave an empty node behind. */
  lemma RestEmpty(nodes: Nodes, head: nat, hi: nat, s: seq<Block>, k: nat, size: nat, nodes': Nodes)
    requires TiledBy(nodes, head, hi, s) && k < |s| && SameBetween(nodes, nodes', head, s[k].address) && size > 0
    requires var a := s[k].address; var b := a + HEADER + size;
             && a in nodes' && nodes'[a].size == size && !nodes'[a].free && nodes'[a].next == b
             && nodes'[a].address == a + HEADER && b in nodes' && nodes'[b].size == 0
    ensures !IsTiled(nodes', head, hi)
  {
    hide IsTiled;
    var a := s[k].address;
    var x := Block(a, size, false);
    SpellsParts(nodes, head, hi, s, k);
    SpellsFrame(nodes, nodes', head, s[..k], a, head, a);
    assert [x][1..] == [];
    SpellsThen(nodes', head, s[..k], a, [x], x.End());
    OneTile(x);
    TilesThen(s[..k], head, a, [x], x.End());
    NotTiled(nodes', head, hi, s[..k] + [x], x.End(), x.End());
  }

  lemma NodeReleased(nodes: Nodes, head: nat, hi: nat, s: seq<Block>, k: nat)
    requires TiledBy(nodes, head, hi, s) && k < |s|
    ensures Released(s, s[k].address) == s[k := s[k].(free := true)] && HasBlock(s, s[k].address)
  {
    ReleaseAt(s, head, hi, k);
  }

  lemma HeadReleased(nodes: Nodes, head: nat, hi: nat, s: seq<Block>)
    requires TiledBy(nodes, head, hi, s) && |s| > 0
    ensures Released(s, head) == s[0 := s[0].(free := true)] && HasBlock(s, head)
  {
    NodeReleased(nodes, head, hi, s, 0);
  }
}
