/** Mapping many pages in a row, and when each of them gets a table. */
module PageRanges {
  import opened Bitwise
  import opened PhysicalMemory
  import opened PageTables
  import opened PagingRuns

  /** n consecutive pages mapped to n consecutive frames, one mapping after another. A page may instead belong to a
      table made on the way. It is left out only if its own call failed: then it has no table, and no frame is left
      to make one. Other pages are as before. */
  ghost predicate RangeStep(v: View, w: View, page: nat, frame: nat, n: nat, flags: uint32, limit: nat)
    requires page + n <= PAGES && frame + n <= PAGES
  {
    && Grows(v, w, flags)
    && (forall p: nat | page <= p < page + n && p !in NewTables(v, w) ::
          (w.leaf[p] == (p - page + frame) * 4096 + flags && w.pd[p / 1024] != 0) || LeftOut(w, p, limit))
    && (forall p: nat | p < PAGES && !(page <= p < page + n) && p !in NewTables(v, w) :: w.leaf[p] == v.leaf[p])
    && (forall b: nat | Roomy(v, page, n, b, limit) :: Tabled(v, w, page, n, b))
  }

  /** The free frames below b. */
  ghost function FreeBelow(used: set<nat>, b: nat): set<nat> {
    set f: nat | f < b && f !in used
  }

  /** The slots without a table among those of n pages. */
  ghost function Missing(pd: seq<uint32>, page: nat, n: nat): set<nat>
    requires |pd| == ENTRIES && page + n <= PAGES
  {
    set i: nat | i < ENTRIES && pd[i] == 0 && page / 1024 <= i && i * 1024 < page + n
  }

  /** Below b there is a free frame for each missing table, and every frame there has a table for its own page. */
  ghost predicate Roomy(v: View, page: nat, n: nat, b: nat, limit: nat)
    requires page + n <= PAGES
  {
    && |v.pd| == ENTRIES && b <= limit && b <= PAGES
    && (forall f: nat | f < b :: v.pd[f / 1024] != 0)
    && (n > 0 ==> |Missing(v.pd, page, n)| <= |FreeBelow(v.used, b)|)
  }

  /** Each of the n pages has a table, and the new tables are those that were missing, in frames below b. */
  ghost predicate Tabled(v: View, w: View, page: nat, n: nat, b: nat)
    requires page + n <= PAGES && |v.pd| == |w.pd| == ENTRIES
  {
    && (forall p: nat | page <= p < page + n :: w.pd[p / 1024] != 0)
    && (forall i: nat | IsNew(v, w, i) :: n > 0 && i in Missing(v.pd, page, n) && w.pd[i] / 4096 < b)
  }

  lemma StaysRoomy(v: View, page: nat, n: nat, b: nat, limit: nat)
    requires page + n < PAGES && Roomy(v, page, n + 1, b, limit)
    ensures Roomy(v, page, n, b, limit)
  {
    if n > 0 {
      NextIsMissing(v.pd, page, n);
      SubsetSize(Missing(v.pd, page, n), Missing(v.pd, page, n + 1));
    }
  }

  /** While tables are missing, frames are left for them. */
  lemma FrameForNext(v: View, m: View, page: nat, n: nat, flags: uint32, b: nat, limit: nat)
    requires page + n < PAGES && Grows(v, m, flags) && Roomy(v, page, n + 1, b, limit) && Tabled(v, m, page, n, b)
    requires m.pd[(page + n) / 1024] == 0
    ensures FreeBelow(m.used, b) != {}
  {
    hide FreeBelow, Missing;
    var made := set i: nat | i < ENTRIES && IsNew(v, m, i);
    ImageCount(made, m.pd);
    assert NewTables(v, m) == set i | i in made :: m.pd[i] / 4096;
    var missing := Missing(v.pd, page, n + 1);
    NextIsMissing(v.pd, page, n);
    OneLeft(FreeBelow(v.used, b), NewTables(v, m), missing, made, (page + n) / 1024);
    UsedUp(v, m, flags, b);
  }

  lemma NextIsMissing(pd: seq<uint32>, page: nat, n: nat)
    requires |pd| == ENTRIES && page + n < PAGES
    ensures pd[(page + n) / 1024] == 0 ==> (page + n) / 1024 in Missing(pd, page, n + 1)
    ensures n > 0 ==> Missing(pd, page, n) <= Missing(pd, page, n + 1)
  {
  }

  lemma UsedUp(v: View, m: View, flags: uint32, b: nat)
    requires Grows(v, m, flags)
    ensures |v.pd| == |m.pd| == ENTRIES && FreeBelow(m.used, b) == FreeBelow(v.used, b) - NewTables(v, m)
  {
    hide NewTables;
  }

  /** With fewer frames taken than tables missing, one is left. */
  lemma OneLeft(free: set<nat>, taken: set<nat>, missing: set<nat>, made: set<nat>, index: nat)
    requires |taken| == |made| && made <= missing && index in missing && index !in made && |missing| <= |free|
    ensures free - taken != {}
  {
    SubsetSize(made, missing - {index});
    SubsetSize(free * taken, taken);
    assert free == (free - taken) + free * taken;
  }

  lemma SubsetSize(a: set<nat>, b: set<nat>)
    requires a <= b
    ensures |a| <= |b|
  {
    assert b == a + (b - a);
  }

  lemma TabledGrows(v: View, m: View, w: View, page: nat, n: nat, entry: uint32, flags: uint32, ok: bool, b: nat,
                    limit: nat)
    requires page + n < PAGES && Grows(v, m, flags) && MapStep(m, w, page + n, entry, flags, ok, limit)
    requires Roomy(v, page, n + 1, b, limit) && Tabled(v, m, page, n, b)
    ensures |w.pd| == ENTRIES && Tabled(v, w, page, n + 1, b)
  {
    hide SelfMaps, FreeBelow, NewTables;
    var index := (page + n) / 1024;
    if m.pd[index] == 0 {
      FrameForNext(v, m, page, n, flags, b, limit);
      LowestBelow(m.used, b, limit);
      assert IsNew(m, w, index);
    }
    forall i: nat | IsNew(v, w, i)
      ensures i in Missing(v.pd, page, n + 1) && w.pd[i] / 4096 < b
    {
      assert IsNew(v, m, i) || IsNew(m, w, i);
    }
  }

  /** With a free frame below b, the lowest free frame is below b. */
  lemma LowestBelow(used: set<nat>, b: nat, limit: nat)
    requires FreeBelow(used, b) != {} && b <= limit
    ensures !Full(used, limit) && forall t: nat | FirstFit(used, limit, t, 1) :: t < b
  {
    var f :| f in FreeBelow(used, b);
    assert FreeRun(used, limit, f, 1);
  }

  ghost predicate LeftOut(w: View, p: nat, limit: nat)
    requires |w.pd| == ENTRIES && p < PAGES
  {
    w.pd[p / 1024] == 0 && Full(w.used, limit)
  }

  lemma GrowsTwice(v: View, m: View, w: View, flags: uint32)
    requires Grows(v, m, flags) && Grows(m, w, flags)
    ensures Grows(v, w, flags) && NewTables(v, w) == NewTables(v, m) + NewTables(m, w)
  {
    forall i: nat | i < ENTRIES
      ensures IsNew(v, w, i) <==> IsNew(v, m, i) || IsNew(m, w, i)
      ensures IsNew(v, m, i) ==> w.pd[i] == m.pd[i] && m.pd[i] / 4096 in m.used
    {
      assert IsNew(v, m, i) ==> m.pd[i] / 4096 in NewTables(v, m);
    }
  }

  lemma RangeGrows(v: View, m: View, w: View, page: nat, frame: nat, n: nat, flags: uint32, ok: bool, limit: nat)
    requires page + n < PAGES && frame + n < PAGES && flags < 4096
    requires RangeStep(v, m, page, frame, n, flags, limit)
    requires MapStep(m, w, page + n, (frame + n) * 4096 + flags, flags, ok, limit)
    ensures RangeStep(v, w, page, frame, n + 1, flags, limit)
  {
    hide Full, SelfMaps, NewTables, Roomy, Tabled, LowestFirst;
    GrowsTwice(v, m, w, flags);
    forall p: nat | page <= p < page + n + 1 && p !in NewTables(v, w)
      ensures (w.leaf[p] == (p - page + frame) * 4096 + flags && w.pd[p / 1024] != 0) || LeftOut(w, p, limit)
    {
      if p < page + n && LeftOut(m, p, limit) {
        StaysLeftOut(m, w, p, page + n, (frame + n) * 4096 + flags, flags, ok, limit);
      }
    }
    var more := n + 1;
    forall b: nat | Roomy(v, page, more, b, limit)
      ensures Tabled(v, w, page, more, b)
    {
      StaysRoomy(v, page, n, b, limit);
      TabledGrows(v, m, w, page, n, (frame + n) * 4096 + flags, flags, ok, b, limit);
    }
  }

  lemma StaysLeftOut(v: View, w: View, p: nat, page: nat, entry: uint32, flags: uint32, ok: bool, limit: nat)
    requires page < PAGES && p < PAGES && MapStep(v, w, page, entry, flags, ok, limit) && LeftOut(v, p, limit)
    ensures LeftOut(w, p, limit)
  {
    hide Full, SelfMaps;
    if ok {
      assert NewTables(v, w) == {} && w.used == v.used;
    }
  }
}
