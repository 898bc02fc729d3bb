/** The heap as a list of blocks: what tiling means and what one merge pass does. */
module HeapBlocks {
  import opened Bitwise

  /** sizeof(malloc_node_t): size, free, next, prev and address, four bytes each. */
  const HEADER: nat := 20

  datatype Block = Block(address: nat, size: nat, free: bool) {
    function End(): nat { address + HEADER + size }
  }

  /** The blocks, header and payload, follow each other from lo to hi without a gap. */
  ghost predicate Tiles(s: seq<Block>, lo: nat, hi: nat) {
    if s == [] then lo == hi
    else s[0].address == lo && s[0].size > 0 && Tiles(s[1..], s[0].End(), hi)
  }

  function Live(s: seq<Block>): seq<Block> {
    if s == [] then []
    else if s[0].free then Live(s[1..]) else [s[0]] + Live(s[1..])
  }

  /** Header and payload bytes of all blocks. */
  function TotalBytes(s: seq<Block>): nat {
    if s == [] then 0 else s[0].size + HEADER + TotalBytes(s[1..])
  }

  /** The lengths of the runs of free blocks before, between and after the live ones. */
  function FreeRuns(s: seq<Block>): (g: seq<nat>)
    ensures |g| == |Live(s)| + 1
  {
    if s == [] then [0]
    else
      var g := FreeRuns(s[1..]);
      if s[0].free then [g[0] + 1] + g[1..] else [0] + g
  }

  function Longest(g: seq<nat>): nat {
    if g == [] then 0 else if g[0] > Longest(g[1..]) then g[0] else Longest(g[1..])
  }

  /** Every length halved, rounding up. */
  function Halved(g: seq<nat>): (h: seq<nat>)
    ensures |h| == |g|
  {
    if g == [] then [] else [(g[0] + 1) / 2] + Halved(g[1..])
  }

  function Join(b: Block, c: Block): Block {
    b.(size := b.size + c.size + HEADER)
  }

  /** One pass: a free pair is joined, and the scan goes on behind the joined block. */
  function MergePass(s: seq<Block>): seq<Block> {
    if |s| < 2 then s
    else if s[0].free && s[1].free then [Join(s[0], s[1])] + MergePass(s[2..])
    else [s[0]] + MergePass(s[1..])
  }

  function Passes(s: seq<Block>, n: nat): seq<Block>
    decreases n
  {
    if n == 0 then s else Passes(MergePass(s), n - 1)
  }

  ghost predicate NoFreePair(s: seq<Block>) {
    |s| >= 2 ==> !(s[0].free && s[1].free) && NoFreePair(s[1..])
  }

  lemma {:induction false} MergeTiles(s: seq<Block>, lo: nat, hi: nat)
    requires Tiles(s, lo, hi)
    ensures Tiles(MergePass(s), lo, hi)
    ensures TotalBytes(MergePass(s)) == TotalBytes(s)
    decreases |s|
  {
    if |s| >= 2 {
      var t := MergePass(s);
      if s[0].free && s[1].free {
        assert s[1..][1..] == s[2..];
        MergeTiles(s[2..], s[1].End(), hi);
        assert t[1..] == MergePass(s[2..]);
      } else {
        MergeTiles(s[1..], s[0].End(), hi);
        assert t[1..] == MergePass(s[1..]);
      }
    }
  }

  lemma HalvedFirst(x: nat, g: seq<nat>)
    ensures Halved([x] + g) == [(x + 1) / 2] + Halved(g)
  {
    assert ([x] + g)[1..] == g;
  }

  lemma RunsFrom(b: Block, s: seq<Block>)
    ensures var g := FreeRuns(s);
            FreeRuns([b] + s) == (if b.free then [g[0] + 1] + g[1..] else [0] + g)
    ensures Live([b] + s) == (if b.free then [] else [b]) + Live(s)
  {
    assert ([b] + s)[1..] == s;
  }

  lemma HalvedAfter(b: Block, s: seq<Block>, t: seq<Block>)
    requires FreeRuns(t) == Halved(FreeRuns(s)) && (b.free ==> FreeRuns(s)[0] == 0)
    ensures FreeRuns([b] + t) == Halved(FreeRuns([b] + s))
  {
    hide FreeRuns, Halved;
    RunsFrom(b, s);
    RunsFrom(b, t);
    var g := FreeRuns(s);
    if b.free {
      assert g == [0] + g[1..];
      HalvedFirst(0, g[1..]);
      HalvedFirst(1, g[1..]);
    } else {
      HalvedFirst(0, g);
    }
  }

  lemma HalvedPair(b: Block, c: Block, s: seq<Block>, t: seq<Block>)
    requires FreeRuns(t) == Halved(FreeRuns(s)) && b.free && c.free
    ensures FreeRuns([Join(b, c)] + t) == Halved(FreeRuns([b] + ([c] + s)))
  {
    hide FreeRuns, Halved;
    RunsFrom(c, s);
    RunsFrom(b, [c] + s);
    RunsFrom(Join(b, c), t);
    var g := FreeRuns(s);
    assert g == [g[0]] + g[1..];
    HalvedFirst(g[0], g[1..]);
    HalvedFirst(g[0] + 2, g[1..]);
  }

  /** A pass halves every run of free blocks, rounding up, and leaves the live blocks as they are. */
  lemma {:induction false} MergeHalvesRuns(s: seq<Block>)
    ensures FreeRuns(MergePass(s)) == Halved(FreeRuns(s))
    ensures Live(MergePass(s)) == Live(s)
    ensures s == [] || !s[0].free ==> FreeRuns(s)[0] == 0
    decreases |s|
  {
    hide FreeRuns, Live, Halved;
    if s == [] {
      NoRuns();
    } else if |s| == 1 || !(s[0].free && s[1].free) {
      var rest := s[1..];
      assert s == [s[0]] + rest;
      MergeHalvesRuns(rest);
      RunsFrom(s[0], rest);
      RunsFrom(s[0], MergePass(rest));
      HalvedAfter(s[0], rest, MergePass(rest));
    } else {
      var tail := s[2..];
      assert s == [s[0]] + ([s[1]] + tail);
      MergeHalvesRuns(tail);
      RunsFrom(s[1], tail);
      RunsFrom(s[0], [s[1]] + tail);
      RunsFrom(Join(s[0], s[1]), MergePass(tail));
      HalvedPair(s[0], s[1], tail, MergePass(tail));
    }
  }

  lemma NoRuns()
    ensures FreeRuns([]) == [0] && Live([]) == [] && Halved([0]) == [0]
  {
    HalvedFirst(0, []);
  }

  lemma {:induction false} TilesSum(s: seq<Block>, lo: nat, hi: nat)
    requires Tiles(s, lo, hi)
    ensures lo + TotalBytes(s) == hi
  {
    if s != [] {
      TilesSum(s[1..], s[0].End(), hi);
    }
  }

  /** Blocks of a tiling are in address order and do not overlap, so no two list nodes are the same. */
  lemma {:induction false} TilesOrdered(s: seq<Block>, lo: nat, hi: nat, i: nat, j: nat)
    requires Tiles(s, lo, hi) && i <= j < |s|
    ensures lo <= s[i].address && s[j].End() <= hi && s[i].size > 0
    ensures i < j ==> s[i].End() <= s[j].address
    ensures i + 1 == j ==> s[i].End() == s[j].address
    decreases |s|
  {
    if i > 0 {
      TilesOrdered(s[1..], s[0].End(), hi, i - 1, j - 1);
    } else if j > 0 {
      TilesOrdered(s[1..], s[0].End(), hi, 0, j - 1);
    } else {
      TilesSum(s[1..], s[0].End(), hi);
    }
  }

  lemma {:induction false} LongestHalved(g: seq<nat>)
    ensures Longest(Halved(g)) == (Longest(g) + 1) / 2
  {
    if g != [] {
      LongestHalved(g[1..]);
      assert Halved(g)[1..] == Halved(g[1..]);
    }
  }

  /** Two adjacent free blocks are a run of at least two. */
  lemma {:induction false} PairIsLongRun(s: seq<Block>)
    ensures NoFreePair(s) <==> Longest(FreeRuns(s)) <= 1
    ensures s == [] || !s[0].free ==> FreeRuns(s)[0] == 0
  {
    if s != [] {
      PairIsLongRun(s[1..]);
      var g := FreeRuns(s[1..]);
      if s[0].free {
        assert Longest([g[0] + 1] + g[1..]) <= 1 <==> g[0] == 0 && Longest(g[1..]) <= 1;
        assert |s| > 1 && s[1].free ==> g[0] > 0;
      } else {
        assert ([0] + g)[1..] == g;
      }
    }
  }

  /** The heap is settled, in that a pass changes nothing, iff no two neighbours are free. */
  lemma {:induction false} SettledIffNoPair(s: seq<Block>)
    ensures MergePass(s) == s <==> NoFreePair(s)
    ensures |MergePass(s)| <= |s|
    decreases |s|
  {
    if |s| >= 2 {
      if s[0].free && s[1].free {
        SettledIffNoPair(s[2..]);
        assert |MergePass(s)| < |s|;
      } else {
        SettledIffNoPair(s[1..]);
        assert MergePass(s)[1..] == MergePass(s[1..]);
      }
    }
  }

  /** n passes settle the heap iff its longest run of free blocks is at most 2 to the n. */
  lemma {:induction false} PassesNeeded(s: seq<Block>, n: nat)
    ensures NoFreePair(Passes(s, n)) <==> Longest(FreeRuns(s)) <= Pow2(n)
    decreases n
  {
    if n == 0 {
      PairIsLongRun(s);
    } else {
      PassesNeeded(MergePass(s), n - 1);
      MergeHalvesRuns(s);
      LongestHalved(FreeRuns(s));
    }
  }

  lemma {:induction false} TilesConcat(a: seq<Block>, b: seq<Block>, lo: nat, hi: nat)
    ensures Tiles(a + b, lo, hi) <==> Tiles(a, lo, lo + TotalBytes(a)) && Tiles(b, lo + TotalBytes(a), hi)
    decreases |a|
  {
    if a == [] {
      assert a + b == b;
    } else {
      assert (a + b)[1..] == a[1..] + b;
      if a[0].address == lo {
        TilesConcat(a[1..], b, a[0].End(), hi);
      }
    }
  }

  /** One turn of the merge loop at block k, as a step of the pass. */
  lemma MergeTurn(s: seq<Block>, k: nat)
    requires k + 1 < |s|
    ensures s[k].free && s[k + 1].free ==>
              var t := s[..k] + [Join(s[k], s[k + 1])] + s[k + 2..];
              t[..k + 1] + MergePass(t[k + 1..]) == s[..k] + MergePass(s[k..])
    ensures !(s[k].free && s[k + 1].free) ==> s[..k + 1] + MergePass(s[k + 1..]) == s[..k] + MergePass(s[k..])
  {
    var t := s[..k] + [Join(s[k], s[k + 1])] + s[k + 2..];
    assert s[k..][2..] == s[k + 2..] && s[k..][1..] == s[k + 1..];
    assert t[..k + 1] == s[..k] + [Join(s[k], s[k + 1])] && t[k + 1..] == s[k + 2..];
    assert s[..k + 1] == s[..k] + [s[k]];
  }
}
