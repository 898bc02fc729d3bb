/** The linked list of node headers in memory, and the list of blocks it stands for. */
module HeapNodes {
  import opened Bitwise
  import opened HeapBlocks
  import opened HeapRuns

  /** malloc_node_t without the prev link. */
  datatype Node = Node(size: uint32, free: bool, next: uint32, address: uint32)

  type Nodes = map<nat, Node>

  /** Following `next` from head spells out s and arrives at tail. */
  ghost predicate Spells(nodes: Nodes, head: nat, s: seq<Block>, tail: nat)
    decreases |s|
  {
    if s == [] then head == tail
    else
      && head == s[0].address && head in nodes
      && nodes[head].size == s[0].size && nodes[head].free == s[0].free
      && (nodes[head].address == head || nodes[head].address == head + HEADER)
      && Spells(nodes, nodes[head].next, s[1..], tail)
  }

  /** The list from head ends at 0, and its blocks tile the heap. */
  ghost predicate TiledBy(nodes: Nodes, head: nat, end: nat, s: seq<Block>) {
    head != 0 && Spells(nodes, head, s, 0) && Tiles(s, head, end)
  }

  ghost predicate IsTiled(nodes: Nodes, head: nat, end: nat) {
    exists s: seq<Block> :: TiledBy(nodes, head, end, s)
  }

  /** Two memories hold the same nodes from lo up to hi. */
  ghost predicate SameBetween(nodes: Nodes, nodes': Nodes, lo: nat, hi: nat) {
    forall a: nat | lo <= a < hi && a in nodes :: a in nodes' && nodes'[a] == nodes[a]
  }

  lemma {:induction false} SpellsConcat(nodes: Nodes, head: nat, a: seq<Block>, b: seq<Block>, tail: nat)
    requires b != []
    ensures Spells(nodes, head, a + b, tail)
       <==> Spells(nodes, head, a, b[0].address) && Spells(nodes, b[0].address, b, tail)
    decreases |a|
  {
    if a == [] {
      assert a + b == b;
    } else {
      assert (a + b)[1..] == a[1..] + b;
      if head in nodes {
        SpellsConcat(nodes, nodes[head].next, a[1..], b, tail);
      }
    }
  }

  /** A stretch of the list only depends on the memory that its blocks cover. */
  lemma {:induction false} SpellsFrame(nodes: Nodes, nodes': Nodes, head: nat, s: seq<Block>, tail: nat,
                                       lo: nat, hi: nat)
    requires Spells(nodes, head, s, tail) && Tiles(s, lo, hi) && SameBetween(nodes, nodes', lo, hi)
    ensures Spells(nodes', head, s, tail)
    decreases |s|
  {
    if s != [] {
      TilesSum(s[1..], s[0].End(), hi);
      SpellsFrame(nodes, nodes', nodes[head].next, s[1..], tail, s[0].End(), hi);
    }
  }

  /** The list up to block k, block k itself, and the list behind it. */
  lemma SpellsParts(nodes: Nodes, head: nat, hi: nat, s: seq<Block>, k: nat)
    requires TiledBy(nodes, head, hi, s) && k < |s|
    ensures var b := s[k];
            && Tiles(s[..k], head, b.address) && Tiles(s[k + 1..], b.End(), hi) && b.size > 0
            && head <= b.address && b.End() <= hi && b.address in nodes
            && nodes[b.address].size == b.size && nodes[b.address].free == b.free
            && (nodes[b.address].address == b.address || nodes[b.address].address == b.address + HEADER)
            && Spells(nodes, head, s[..k], b.address) && Spells(nodes, nodes[b.address].next, s[k + 1..], 0)
  {
    assert s == s[..k] + s[k..] && s[k..][1..] == s[k + 1..];
    SpellsConcat(nodes, head, s[..k], s[k..], 0);
    TilesConcat(s[..k], s[k..], head, hi);
    TilesOrdered(s, head, hi, k, k);
  }

  /** Rewriting the memory of block k only, so that it spells t, puts t in place of block k. */
  lemma ReplaceSpells(nodes: Nodes, nodes': Nodes, head: nat, hi: nat, s: seq<Block>, k: nat, t: seq<Block>)
    requires TiledBy(nodes, head, hi, s) && k < |s| && t != [] && t[0].address == s[k].address
    requires Tiles(t, s[k].address, s[k].End())
    requires SameBetween(nodes, nodes', head, s[k].address) && SameBetween(nodes, nodes', s[k].End(), hi)
    requires s[k].address in nodes && Spells(nodes', s[k].address, t, nodes[s[k].address].next)
    ensures TiledBy(nodes', head, hi, s[..k] + t + s[k + 1..])
  {
    SpellsParts(nodes, head, hi, s, k);
    var next := nodes[s[k].address].next;
    SpellsFrame(nodes, nodes', head, s[..k], s[k].address, head, s[k].address);
    SpellsFrame(nodes, nodes', next, s[k + 1..], 0, s[k].End(), hi);
    SpellsConcat(nodes', head, s[..k], t, next);
    SpellsThen(nodes', head, s[..k] + t, next, s[k + 1..], 0);
    ReplaceTiles(s, k, t, head, hi);
  }

  lemma {:induction false} SpellsThen(nodes: Nodes, head: nat, a: seq<Block>, mid: nat, b: seq<Block>, tail: nat)
    requires Spells(nodes, head, a, mid) && Spells(nodes, mid, b, tail)
    ensures Spells(nodes, head, a + b, tail)
    decreases |a|
  {
    if a == [] {
      assert a + b == b;
    } else {
      assert (a + b)[1..] == a[1..] + b;
      SpellsThen(nodes, nodes[head].next, a[1..], mid, b, tail);
    }
  }

  lemma SetFree(nodes: Nodes, head: nat, hi: nat, s: seq<Block>, k: nat, free: bool)
    requires TiledBy(nodes, head, hi, s) && k < |s|
    ensures s[k].address in nodes
    ensures var a := s[k].address;
            TiledBy(nodes[a := nodes[a].(free := free)], head, hi, s[k := s[k].(free := free)])
  {
    SpellsParts(nodes, head, hi, s, k);
    var a, b := s[k].address, s[k].(free := free);
    var nodes' := nodes[a := nodes[a].(free := free)];
    assert [b][1..] == [];
    OneTile(b);
    ReplaceSpells(nodes, nodes', head, hi, s, k, [b]);
    assert s[..k] + [b] + s[k + 1..] == s[k := b];
  }

  lemma SplitNode(nodes: Nodes, head: nat, hi: nat, s: seq<Block>, k: nat, size: nat, nodes': Nodes)
    requires TiledBy(nodes, head, hi, s) && k < |s|
    requires 0 < size && size + HEADER < s[k].size && s[k].End() < 0x1_0000_0000
    requires s[k].address in nodes
    requires var a := s[k].address; var b := a + HEADER + size;
             nodes' == nodes[b := Node(s[k].size - size - HEADER, true, nodes[a].next, b + HEADER)]
                            [a := Node(size, false, b, a + HEADER)]
    ensures TiledBy(nodes', head, hi, Split(s, k, size))
  {
    SpellsParts(nodes, head, hi, s, k);
    var t := Split(s, k, size)[k..k + 2];
    assert t[1..] == [t[1]] && t[1..][1..] == [];
    ReplaceSpells(nodes, nodes', head, hi, s, k, t);
    assert Split(s, k, size) == s[..k] + t + s[k + 1..];
  }

  /** Appending a node behind the last one, past the end of the heap. */
  lemma AppendNode(nodes: Nodes, head: nat, hi: nat, s: seq<Block>, size: uint32, nodes': Nodes)
    requires TiledBy(nodes, head, hi, s) && |s| > 0 && hi < 0x1_0000_0000 && size > 0
    requires s[|s| - 1].address in nodes
    requires var last := s[|s| - 1].address;
             nodes' == nodes[hi := Node(size, false, 0, hi)][last := nodes[last].(next := hi)]
    ensures TiledBy(nodes', head, hi + HEADER + size, s + [Block(hi, size, false)])
    ensures Spells(nodes', head, s, hi)
  {
    var k, b := |s| - 1, Block(hi, size, false);
    SpellsParts(nodes, head, hi, s, k);
    assert s[k + 1..] == [] && [s[k]][1..] == [] && [b][1..] == [];
    SpellsFrame(nodes, nodes', head, s[..k], s[k].address, head, s[k].address);
    SpellsThen(nodes', head, s[..k], s[k].address, [s[k]], hi);
    assert s == s[..k] + [s[k]];
    SpellsThen(nodes', head, s, hi, [b], 0);
    TilesSum(s, head, hi);
    TilesConcat(s, [b], head, b.End());
    TilesConcat(s, [], head, hi);
    assert s + [] == s;
  }

  lemma JoinNodes(nodes: Nodes, head: nat, hi: nat, s: seq<Block>, k: nat, nodes': Nodes)
    requires TiledBy(nodes, head, hi, s) && k + 1 < |s| && s[k].size + s[k + 1].size + HEADER < 0x1_0000_0000
    requires s[k].address in nodes && s[k + 1].address in nodes
    requires var a, c := s[k].address, s[k + 1].address;
             nodes' == nodes[a := nodes[a].(size := s[k].size + s[k + 1].size + HEADER, next := nodes[c].next)]
    ensures TiledBy(nodes', head, hi, s[..k] + [Join(s[k], s[k + 1])] + s[k + 2..])
  {
    SpellsParts(nodes, head, hi, s, k);
    SpellsParts(nodes, head, hi, s, k + 1);
    TilesOrdered(s, head, hi, k, k + 1);
    var a, j := s[k].address, Join(s[k], s[k + 1]);
    SpellsFrame(nodes, nodes', head, s[..k], a, head, a);
    SpellsFrame(nodes, nodes', nodes[s[k + 1].address].next, s[k + 2..], 0, s[k + 1].End(), hi);
    assert [j][1..] == [];
    SpellsThen(nodes', a, [j], nodes'[a].next, s[k + 2..], 0);
    SpellsThen(nodes', head, s[..k], a, [j] + s[k + 2..], 0);
    OneTile(j);
    TilesThen([j], a, j.End(), s[k + 2..], hi);
    TilesThen(s[..k], head, a, [j] + s[k + 2..], hi);
    assert s[..k] + [j] + s[k + 2..] == s[..k] + ([j] + s[k + 2..]);
  }

  lemma TilesThen(a: seq<Block>, lo: nat, mid: nat, b: seq<Block>, hi: nat)
    requires Tiles(a, lo, mid) && Tiles(b, mid, hi)
    ensures Tiles(a + b, lo, hi)
  {
    TilesSum(a, lo, mid);
    TilesConcat(a, b, lo, hi);
  }

  /** In a tiling, every node that the list reaches has a payload and ends inside the heap. */
  lemma {:induction false} ReachedEndsInside(nodes: Nodes, head: nat, end: nat, t: seq<Block>, a: seq<Block>,
                                             mid: nat, x: nat)
    requires Spells(nodes, head, t, 0) && Tiles(t, head, end) && head != 0
    requires Spells(nodes, head, a, x) && Tiles(a, head, mid) && x != 0 && x in nodes
    ensures nodes[x].size > 0 && x + HEADER + nodes[x].size <= end
    decreases |a|
  {
    if a == [] {
      TilesSum(t[1..], t[0].End(), end);
    } else {
      ReachedEndsInside(nodes, nodes[head].next, end, t[1..], a[1..], mid, x);
    }
  }

  /** So a list that reaches an empty node, or one that ends past the heap, does not tile it. */
  lemma NotTiled(nodes: Nodes, head: nat, end: nat, a: seq<Block>, mid: nat, x: nat)
    requires Spells(nodes, head, a, x) && Tiles(a, head, mid) && head != 0 && x != 0 && x in nodes
    requires nodes[x].size == 0 || x + HEADER + nodes[x].size > end
    ensures !IsTiled(nodes, head, end)
  {
    if IsTiled(nodes, head, end) {
      var t: seq<Block> :| TiledBy(nodes, head, end, t);
      ReachedEndsInside(nodes, head, end, t, a, mid, x);
    }
  }

  lemma SingleNode(nodes: Nodes, head: nat, size: nat)
    requires head != 0 && size > 0 && head in nodes && nodes[head].size == size && nodes[head].free
    requires nodes[head].next == 0 && nodes[head].address == head + HEADER
    ensures TiledBy(nodes, head, head + HEADER + size, [Block(head, size, true)])
  {
    var b := Block(head, size, true);
    assert [b][1..] == [];
  }

  /** The nodes of the blocks s, each leading to the next and the last to `tail`. */
  ghost predicate Linked(nodes: Nodes, s: seq<Block>, tail: nat) {
    forall i | 0 <= i < |s| ::
      && s[i].address in nodes
      && (nodes[s[i].address].address == s[i].address || nodes[s[i].address].address == s[i].address + HEADER)
      && nodes[s[i].address].next == (if i + 1 < |s| then s[i + 1].address else tail)
  }

  lemma TiledIsTiled(nodes: Nodes, head: nat, end: nat, s: seq<Block>)
    requires TiledBy(nodes, head, end, s)
    ensures IsTiled(nodes, head, end)
  {
  }

  /** What a request for `size` bytes does to the heap that s tiles up to hi. It stays intact iff the request keeps the
      tiling and the heap is still backed, which it is if a block fits; without the first, the list does not tile the
      heap, unless the header that would break it could not be written. */
  ghost predicate MallocOutcome(s: seq<Block>, hi: nat, size: uint32, nodes': Nodes, head: nat, hi': nat,
                                s': seq<Block>, address: nat, intact: bool, backed: bool, landed: bool)
  {
    if size == 0 then intact && TiledBy(nodes', head, hi', s') && s' == s && hi' == hi && address == 0
    else
      && (intact <==> KeepsTiling(s, hi, size) && backed)
      && (FirstFitting(s, Need(size)) < |s| ==> backed)
      && (intact ==> TiledBy(nodes', head, hi', s') && s' == AfterMalloc(s, hi, size)
                     && hi' == EndAfterMalloc(s, hi, size) && address == MallocResult(s, hi, size))
      && (!KeepsTiling(s, hi, size) && landed ==> !IsTiled(nodes', head, hi'))
  }

  lemma ExactOutcome(s: seq<Block>, hi: nat, size: uint32, nodes': Nodes, head: nat, k: nat, s': seq<Block>,
                     address: nat, landed: bool)
    requires size > 0 && k == FirstFitting(s, Need(size)) && k < |s| && s[k].size == Need(size)
    requires s' == s[k := s[k].(free := false)] && TiledBy(nodes', head, hi, s') && address == s[k].address + HEADER
    ensures MallocOutcome(s, hi, size, nodes', head, hi, s', address, true, true, landed)
  {
    hide TiledBy, FirstFitting, AfterMalloc;
    MallocCases(s, hi, size);
  }

  lemma SplitOutcome(s: seq<Block>, hi: nat, size: uint32, nodes': Nodes, head: nat, k: nat, s': seq<Block>,
                     address: nat, landed: bool)
    requires size > 0 && k == FirstFitting(s, Need(size)) && k < |s| && s[k].size > Need(size)
    requires Fits(size) ==>
               TiledBy(nodes', head, hi, s') && s' == Split(s, k, size) && address == s[k].address + HEADER
    requires !Fits(size) ==> !IsTiled(nodes', head, hi)
    ensures MallocOutcome(s, hi, size, nodes', head, hi, s', address, Fits(size), true, landed)
  {
    hide TiledBy, FirstFitting, AfterMalloc, Split;
    if Fits(size) {
      MallocCases(s, hi, size);
    }
  }

  lemma GrowOutcome(s: seq<Block>, hi: nat, size: uint32, nodes': Nodes, head: nat, hi': nat, s': seq<Block>,
                    intact: bool, backed: bool, landed: bool)
    requires size > 0 && FirstFitting(s, Need(size)) == |s|
    requires intact <==> hi + PageBytes(size) < 0x1_0000_0000 && backed
    requires intact ==> TiledBy(nodes', head, hi', s') && s' == s + [Block(hi, PageBytes(size) - HEADER, false)]
                        && hi' == hi + PageBytes(size)
    requires hi + PageBytes(size) >= 0x1_0000_0000 && landed ==> !IsTiled(nodes', head, hi')
    ensures MallocOutcome(s, hi, size, nodes', head, hi', s', hi, intact, backed, landed)
  {
    hide TiledBy, FirstFitting, PageBytes, AfterMalloc;
    if intact {
      MallocCases(s, hi, size);
    }
  }
}
