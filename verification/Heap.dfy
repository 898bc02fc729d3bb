/** The allocator over the node list, growing through the frame bitmap and the page tables. */
module Heap {
  import opened Bitwise
  import opened PhysicalMemory
  import opened PageTables
  import opened PagingRuns
  import opened PageRanges
  import opened BitmapFrames
  import opened VirtualMemory
  import opened HeapBlocks
  import opened HeapRuns
  import opened HeapNodes
  import opened HeapMemory
  import opened HeapWrites

  datatype FreeOutcome = Freed | Ignored | Spins

  class Allocator {
    const mmu: Mmu
    var nodes: Nodes
    var mallocHead: uint32
    var heapEnd: uint32
    var mallocVirtAddress: uint32
    var mallocPhysAddress: uint32
    var totalMallocPages: nat
    /** The blocks that the list stands for. */
    ghost var blocks: seq<Block>

    /** The list tiles the heap, and the heap is backed by memory, so that the headers are what was written. */
    ghost predicate Valid()
      reads this, mmu, mmu.pmm`maxBlocks, mmu.pmm.memoryMap, mmu.ram
    {
      mmu.Valid() && |blocks| > 0 && TiledBy(nodes, mallocHead, heapEnd, blocks) && InMemory()
    }

    predicate InMemory()
      requires mmu.Hardware()
      reads this, mmu, mmu.pmm`maxBlocks, mmu.pmm.memoryMap, mmu.ram
    {
      Backed(mmu.Tables(), mmu.directory / 4096, mallocHead, heapEnd)
    }

    /** The page of an address has a table, so that a write to it gets through. */
    predicate HasTable(a: uint32)
      requires mmu.Hardware()
      reads this, mmu, mmu.pmm`maxBlocks, mmu.ram
    {
      mmu.ram[mmu.directory / 4096][PdIndex(a)] != 0
    }

    lemma NotInMemory(a: uint32)
      requires mmu.Hardware() && !HasTable(a) && mallocHead <= a < heapEnd
      ensures !InMemory()
    {
      NoTableNotBacked(mmu.Tables(), mmu.directory / 4096, a, mallocHead, heapEnd);
    }

    constructor (mmu: Mmu, virtAddress: uint32)
      ensures this.mmu == mmu && mallocHead == 0 && mallocVirtAddress == virtAddress
    {
      this.mmu := mmu;
      nodes, blocks := map[], [];
      mallocHead, heapEnd, mallocVirtAddress, mallocPhysAddress, totalMallocPages := 0, 0, virtAddress, 0, 0;
    }

    /** Joins a node with its successor. */
    method JoinNext(temp: uint32, ghost k: nat)
      requires Valid() && k + 1 < |blocks| && temp == blocks[k].address
      modifies this`nodes, this`blocks
      ensures Valid() && var s := old(blocks); blocks == s[..k] + [Join(s[k], s[k + 1])] + s[k + 2..]
      ensures temp in nodes && nodes[temp].next == (if k + 1 < |blocks| then blocks[k + 1].address else 0)
    {
      hide TiledBy, Backed;
      HeadOfList(nodes, mallocHead, heapEnd, blocks, k);
      HeadOfList(nodes, mallocHead, heapEnd, blocks, k + 1);
      TwoFit(nodes, blocks, mallocHead, heapEnd, k);
      ghost var before, s := nodes, blocks;
      var next := nodes[temp].next;
      nodes := nodes[temp := nodes[temp].(size := nodes[temp].size + nodes[next].size + HEADER)];
      nodes := nodes[temp := nodes[temp].(next := nodes[next].next)];
      JoinNodes(before, mallocHead, heapEnd, s, k, nodes);
      blocks := s[..k] + [Join(s[k], s[k + 1])] + s[k + 2..];
      HeadOfList(nodes, mallocHead, heapEnd, blocks, k);
    }

    /** Joins a free node with a free successor, then moves on past the result. */
    method MergeFreeBlocks()
      requires Valid()
      modifies this`nodes, this`blocks
      ensures Valid() && blocks == MergePass(old(blocks))
    {
      hide TiledBy, MergePass, Backed, Join;
      var temp := mallocHead;
      ghost var k := 0;
      HeadOfList(nodes, mallocHead, heapEnd, blocks, 0);
      while temp != 0 && nodes[temp].next != 0
        invariant Valid() && k <= |blocks|
        invariant temp == (if k < |blocks| then blocks[k].address else 0)
        invariant temp != 0 ==> temp in nodes
        invariant temp != 0 ==> nodes[temp].next == (if k + 1 < |blocks| then blocks[k + 1].address else 0)
        invariant blocks[..k] + MergePass(blocks[k..]) == MergePass(old(blocks))
        decreases |blocks| - k
      {
        HeadOfList(nodes, mallocHead, heapEnd, blocks, k);
        HeadOfList(nodes, mallocHead, heapEnd, blocks, k + 1);
        MergeTurn(blocks, k);
        var next := nodes[temp].next;
        if nodes[temp].free && nodes[next].free {
          JoinNext(temp, k);
        }
        k := k + 1;
        temp := nodes[temp].next;
        if temp != 0 {
          HeadOfList(nodes, mallocHead, heapEnd, blocks, k);
        }
      }
      if k + 1 < |blocks| {
        HeadOfList(nodes, mallocHead, heapEnd, blocks, k);
        HeadOfList(nodes, mallocHead, heapEnd, blocks, k + 1);
      }
      NothingLeft(blocks, k);
    }

    /** Maps n pages one after another. */
    method MapPages(physAddress: uint32, virtAddress: uint32, n: nat)
      requires mmu.Valid() && physAddress % 4096 == 0 && n <= PAGES
      modifies mmu.ram, mmu.pmm`usedBlocks, mmu.pmm.memoryMap
      ensures mmu.Valid()
      ensures virtAddress / 4096 + n <= PAGES && physAddress / 4096 + n <= PAGES ==>
                RangeStep(old(mmu.Tables()), mmu.Tables(), virtAddress / 4096, physAddress / 4096, n, USER_PAGE,
                          mmu.pmm.maxBlocks)
    {
      hide Separate, MapStep, LeafOf, RangeStep, Read, Entry;
      ghost var v, page, frame := mmu.Tables(), virtAddress / 4096, physAddress / 4096;
      var virt := virtAddress;
      EmptyRange(v, mmu.directory / 4096, page, frame, mmu.pmm.maxBlocks);
      for i := 0 to n
        invariant mmu.Valid()
        invariant virt == Add32(virtAddress, i * 4096)
        invariant page + n <= PAGES && frame + n <= PAGES ==>
            RangeStep(v, mmu.Tables(), page, frame, i, USER_PAGE, mmu.pmm.maxBlocks)
      {
        ghost var m := mmu.Tables();
        var ok := mmu.MapAddress(Add32(physAddress, i * 4096), virt, USER_PAGE);
        NextPage(physAddress, virtAddress, i);
        if page + n <= PAGES && frame + n <= PAGES {
          RangeGrows(v, m, mmu.Tables(), page, frame, i, USER_PAGE, ok, mmu.pmm.maxBlocks);
        }
        Add32Twice(virtAddress, i * 4096, 4096);
        virt := Add32(virt, 4096);
      }
    }

    /** Takes n frames in a row and maps n pages from virt on to them; without enough frames the pages go to the frames
        from 0 on. */
    method TakePages(virt: uint32, n: nat, ghost lo: nat)
      requires mmu.Valid() && n <= PAGES
      modifies this`mallocPhysAddress, mmu.ram, mmu.pmm`usedBlocks, mmu.pmm.memoryMap
      ensures mmu.Valid()
      ensures PagesTaken(old(mmu.Tables()), mmu.Tables(), virt, mallocPhysAddress, n, mmu.pmm.maxBlocks)
      ensures GrowthRule(old(mmu.Tables()), mmu.Tables(), mmu.directory / 4096, lo, virt, n, mmu.pmm.maxBlocks)
      ensures SupplyRule(old(mmu.Tables()), mmu.Tables(), mmu.directory / 4096, lo, virt, n, mmu.pmm.maxBlocks)
    {
      hide Separate, AllocStep, RangeStep, HasFreeRun, GrowthRule, SupplyRule, FirstFit;
      ghost var v := mmu.Tables();
      mallocPhysAddress := mmu.AllocateBlocks(n);
      MapPages(mallocPhysAddress, virt, n);
      GrowthFollowsRule(v, mmu.Tables(), mmu.directory / 4096, lo, virt, mallocPhysAddress, n, mmu.pmm.maxBlocks);
      SuppliesFollowRule(v, mmu.Tables(), mmu.directory / 4096, lo, virt, mallocPhysAddress, n, mmu.pmm.maxBlocks);
    }

    /** One free block over 256 pages. The block stays free, although its payload address is returned. It is intact
        unless memory was short. */
    method MallocInit() returns (address: uint32, intact: bool)
      requires mmu.Valid() && 0 < mallocVirtAddress && mallocVirtAddress + 0x10_0000 < 0x1_0000_0000
      modifies this, mmu.ram, mmu.pmm`usedBlocks, mmu.pmm.memoryMap
      ensures mmu.Valid() && mallocVirtAddress == old(mallocVirtAddress) == mallocHead
      ensures heapEnd == mallocHead + 0x10_0000 && (intact <==> InMemory())
      ensures intact ==>
                Valid() && HeapState(blocks, heapEnd) == FreshHeap(mallocHead) && address == mallocHead + 20
      ensures PagesTaken(old(mmu.Tables()), mmu.Tables(), mallocHead, mallocPhysAddress, 256, mmu.pmm.maxBlocks)
      ensures GrowthRule(old(mmu.Tables()), mmu.Tables(), mmu.directory / 4096, mallocHead, mallocHead, 256,
                         mmu.pmm.maxBlocks)
      ensures SupplyRule(old(mmu.Tables()), mmu.Tables(), mmu.directory / 4096, mallocHead, mallocHead, 256,
                         mmu.pmm.maxBlocks)
    {
      hide TiledBy, Separate, PagesTaken, Read, Backed, PdIndex, GrowthRule, SupplyRule;
      totalMallocPages := 256;
      heapEnd := mallocVirtAddress + totalMallocPages * PAGE_SIZE;
      mallocHead := mallocVirtAddress;
      TakePages(mallocVirtAddress, totalMallocPages, mallocHead);
      if !HasTable(mallocHead) {
        NotInMemory(mallocHead);
        return 0, false;
      }
      var size := totalMallocPages * PAGE_SIZE - HEADER;
      nodes := nodes[mallocHead := Node(size, true, 0, mallocHead + HEADER)];
      blocks := [Block(mallocHead, size, true)];
      SingleNode(nodes, mallocHead, size);
      return nodes[mallocHead].address, InMemory();
    }

    /** Appends whole pages as one live block. The result is the address of its header. The heap stays intact iff the
        request is not 0, the new end lies below 4 GB, and memory was not short. When the header cannot be written, the
        write never returns. */
    method MallocMorePages(size: uint32) returns (address: uint32, intact: bool)
      requires Valid()
      modifies this, mmu.ram, mmu.pmm`usedBlocks, mmu.pmm.memoryMap
      ensures mmu.Valid() && mallocHead == old(mallocHead) && address == old(heapEnd)
      ensures heapEnd == Add32(old(heapEnd), PageBytes(size))
      ensures intact <==> size > 0 && old(heapEnd) + PageBytes(size) < 0x1_0000_0000 && InMemory()
      ensures intact ==>
                && Valid() && blocks == old(blocks) + [Block(old(heapEnd), PageBytes(size) - HEADER, false)]
                && heapEnd == old(heapEnd) + PageBytes(size)
      ensures !(size > 0 && old(heapEnd) + PageBytes(size) < 0x1_0000_0000) && HasTable(old(heapEnd)) ==>
                !IsTiled(nodes, mallocHead, heapEnd)
      ensures PagesTaken(old(mmu.Tables()), mmu.Tables(), old(heapEnd), mallocPhysAddress,
                         PageBytes(size) / PAGE_SIZE, mmu.pmm.maxBlocks)
      ensures Foretold(old(mmu.Tables()), mmu.Tables(), mmu.pmm.maxBlocks, mallocHead, old(heapEnd), heapEnd,
                       PageBytes(size) / PAGE_SIZE, size > 0 && old(heapEnd) + PageBytes(size) < 0x1_0000_0000, intact)
      ensures intact ==>
                Linked(nodes, old(blocks), old(heapEnd)) && old(heapEnd) in nodes && nodes[old(heapEnd)].next == 0
    {
      hide TiledBy, IsTiled, Linked, Separate, PagesTaken, Read, Backed, PageBytes, PdIndex, LeafOf, GrowthRule;
      hide SupplyRule, Foretold;
      totalMallocPages := size / PAGE_SIZE;
      if size % PAGE_SIZE > 0 {
        totalMallocPages := totalMallocPages + 1;
      }
      PagesAre(size, totalMallocPages);
      var virt := heapEnd;
      heapEnd := Add32(virt, totalMallocPages * PAGE_SIZE);
      var temp := LastNode(virt);
      TakePages(virt, totalMallocPages, mallocHead);
      intact := size > 0 && virt + totalMallocPages * PAGE_SIZE < 0x1_0000_0000 && InMemory();
      GrowthForetold(old(mmu.Tables()), mmu.Tables(), mmu.directory / 4096, mmu.pmm.maxBlocks, mallocHead, virt,
                     heapEnd, totalMallocPages, size > 0 && virt + totalMallocPages * PAGE_SIZE < 0x1_0000_0000,
                     intact);
      if !HasTable(virt) {
        if virt < heapEnd {
          HeadOfList(nodes, mallocHead, virt, blocks, 0);
          NotInMemory(virt);
        }
        return virt, false;
      }
      address := AppendHeader(virt, temp, size);
    }

    /** Writes the header of the new block and links it behind the last node. */
    method AppendHeader(virt: uint32, temp: uint32, ghost size: uint32) returns (address: uint32)
      requires |blocks| > 0 && TiledBy(nodes, mallocHead, virt, blocks) && temp == blocks[|blocks| - 1].address
      requires temp in nodes && temp < virt && heapEnd == Add32(virt, PageBytes(size))
      requires totalMallocPages * PAGE_SIZE == PageBytes(size)
      modifies this`nodes, this`blocks
      ensures address == virt
      ensures size > 0 && virt + PageBytes(size) < 0x1_0000_0000 ==>
                && TiledBy(nodes, mallocHead, heapEnd, blocks) && heapEnd == virt + PageBytes(size)
                && blocks == old(blocks) + [Block(virt, PageBytes(size) - HEADER, false)]
      ensures !(size > 0 && virt + PageBytes(size) < 0x1_0000_0000) ==> !IsTiled(nodes, mallocHead, heapEnd)
      ensures Linked(nodes, old(blocks), virt) && virt in nodes && nodes[virt].next == 0
    {
      hide TiledBy, IsTiled, Linked, PageBytes;
      ghost var before, s := nodes, blocks;
      var bytes := Sub32(Add32(0, totalMallocPages * PAGE_SIZE), HEADER);
      nodes := nodes[virt := Node(bytes, false, 0, virt)];
      nodes := nodes[temp := nodes[temp].(next := virt)];
      address := nodes[virt].address;
      blocks := s + [Block(virt, bytes, false)];
      Appended(before, mallocHead, virt, s, size, heapEnd, nodes);
    }

    /** The end of the list. */
    method LastNode(ghost hi: nat) returns (temp: uint32)
      requires |blocks| > 0 && TiledBy(nodes, mallocHead, hi, blocks)
      ensures temp in nodes && temp == blocks[|blocks| - 1].address && temp < hi
    {
      temp := mallocHead;
      ghost var k := 0;
      HeadOfList(nodes, mallocHead, hi, blocks, 0);
      while nodes[temp].next != 0
        invariant k < |blocks| && temp == blocks[k].address && temp in nodes && temp < hi
        invariant nodes[temp].next == (if k + 1 < |blocks| then blocks[k + 1].address else 0)
        decreases |blocks| - k
      {
        HeadOfList(nodes, mallocHead, hi, blocks, k + 1);
        temp := nodes[temp].next;
        k := k + 1;
      }
      if k + 1 < |blocks| {
        HeadOfList(nodes, mallocHead, hi, blocks, k + 1);
      }
    }

    /** Cuts `size` bytes off a free node; asks for more pages when they do not fit; 0 for a live node. The heap is
        broken when size plus header wraps around, or when either part would be empty. */
    method SplitBlocks(node: uint32, size: uint32, ghost k: nat) returns (address: uint32, intact: bool)
      requires Valid() && k < |blocks| && node == blocks[k].address
      modifies this, mmu.ram, mmu.pmm`usedBlocks, mmu.pmm.memoryMap
      ensures mmu.Valid() && mallocHead == old(mallocHead)
      ensures !old(blocks)[k].free ==>
                intact && Valid() && blocks == old(blocks) && heapEnd == old(heapEnd) && address == 0
      ensures old(blocks)[k].free && old(blocks)[k].size >= Need(size) ==>
                && heapEnd == old(heapEnd) && mmu.Tables() == old(mmu.Tables()) && InMemory()
                && (intact <==> size > 0 && Fits(size) && old(blocks)[k].size > Need(size))
                && (intact ==> Valid() && blocks == Split(old(blocks), k, size) && address == node + HEADER)
                && (!intact ==> !IsTiled(nodes, mallocHead, heapEnd))
      ensures old(blocks)[k].free && old(blocks)[k].size < Need(size) ==>
                && (intact <==> size > 0 && old(heapEnd) + PageBytes(size) < 0x1_0000_0000 && InMemory())
                && (intact ==>
                      && Valid() && blocks == old(blocks) + [Block(old(heapEnd), PageBytes(size) - HEADER, false)]
                      && address == old(heapEnd))
    {
      hide TiledBy, IsTiled, Separate, Read, PagesTaken, Linked, Backed, PageBytes, PdIndex;
      HeadOfList(nodes, mallocHead, heapEnd, blocks, k);
      if !nodes[node].free {
        return 0, true;
      }
      if nodes[node].size < Need(size) {
        address, intact := MallocMorePages(size);
        return;
      }
      ghost var before, s := nodes, blocks;
      var oldNode := Add32(node, size + HEADER);
      var rest := Node(Sub32(nodes[node].size, size + HEADER), true, nodes[node].next, Add32(oldNode, HEADER));
      intact := size > 0 && Fits(size) && nodes[node].size > Need(size);
      nodes := nodes[oldNode := rest];
      nodes := nodes[node := Node(size, false, oldNode, Add32(node, HEADER))];
      SplitEffect(before, mallocHead, heapEnd, s, k, size, nodes);
      NeedIsSum(size);
      if intact {
        blocks := Split(s, k, size);
      }
      address := nodes[node].address;
    }

    /** Looks for a node other than the last one that holds ptr. After growing there is none: only the last one does. */
    method SearchBeforeLast(ptr: uint32, ghost s: seq<Block>) returns (cur: uint32)
      requires |s| > 0 && mallocHead == s[0].address && Linked(nodes, s, ptr) && ptr in nodes && nodes[ptr].next == 0
      requires forall i | 0 <= i < |s| :: 0 < s[i].address && s[i].address + HEADER < ptr
      ensures cur == 0
    {
      cur := mallocHead;
      ghost var k := 0;
      while nodes[cur].next != 0
        invariant k <= |s| && cur in nodes && cur == (if k < |s| then s[k].address else ptr)
        decreases |s| - k
      {
        if nodes[cur].address == ptr {
          return;
        }
        cur := nodes[cur].next;
        k := k + 1;
      }
      return 0;
    }

    /** The first free node that holds `size` bytes and a header, or 0. */
    method FindFit(size: uint32) returns (temp: uint32, ghost k: nat)
      requires Valid()
      ensures k == FirstFitting(blocks, Need(size)) && temp == (if k < |blocks| then blocks[k].address else 0)
      ensures k < |blocks| ==> temp != 0 && temp in nodes && nodes[temp].size == blocks[k].size
    {
      hide TiledBy, Separate, Read, FirstFitting, Backed;
      temp, k := mallocHead, 0;
      HeadOfList(nodes, mallocHead, heapEnd, blocks, 0);
      while temp != 0
        invariant k <= |blocks| && temp == (if k < |blocks| then blocks[k].address else 0)
        invariant k < |blocks| ==> temp != 0
        invariant forall i | 0 <= i < k :: !(blocks[i].free && blocks[i].size >= Need(size))
        decreases |blocks| - k
      {
        HeadOfList(nodes, mallocHead, heapEnd, blocks, k);
        if nodes[temp].free && nodes[temp].size >= Need(size) {
          FirstFittingIs(blocks, Need(size), k);
          return;
        }
        temp := nodes[temp].next;
        k := k + 1;
        if k < |blocks| {
          HeadOfList(nodes, mallocHead, heapEnd, blocks, k);
        }
      }
      FirstFittingIs(blocks, Need(size), k);
    }

    /** Gives out the whole of a free node that fits exactly. */
    method TakeNode(temp: uint32, ghost k: nat) returns (address: uint32)
      requires Valid() && k < |blocks| && temp == blocks[k].address
      modifies this`nodes, this`blocks
      ensures Valid() && blocks == old(blocks)[k := old(blocks)[k].(free := false)] && address == temp + HEADER
    {
      hide TiledBy, Separate, Read, Backed;
      HeadOfList(nodes, mallocHead, heapEnd, blocks, k);
      ghost var s, before := blocks, nodes;
      nodes := nodes[temp := nodes[temp].(free := false)];
      blocks := s[k := s[k].(free := false)];
      SetFree(before, mallocHead, heapEnd, s, k, false);
      return Add32(temp, HEADER);
    }

    /** First fit over the list, else new pages. For every request: the heap stays intact iff the request keeps the
        tiling and the heap is backed afterwards. */
    method MallocNext(size: uint32) returns (address: uint32, intact: bool)
      requires Valid()
      modifies this, mmu.ram, mmu.pmm`usedBlocks, mmu.pmm.memoryMap
      ensures mmu.Valid() && mallocHead == old(mallocHead)
      ensures MallocOutcome(old(blocks), old(heapEnd), size, nodes, mallocHead, heapEnd, blocks, address, intact,
                            InMemory(), HasTable(old(heapEnd)))
      ensures var h := HeapState(old(blocks), old(heapEnd));
              Foretold(old(mmu.Tables()), mmu.Tables(), mmu.pmm.maxBlocks, mallocHead, h.end, heapEnd,
                       PagesFor(h, Malloc(size)), Possible(h, Malloc(size)), intact)
      ensures intact ==> Valid()
    {
      hide TiledBy, IsTiled, Separate, Read, AfterMalloc, Split, PageBytes, PagesTaken, Linked, FirstFitting, Backed;
      hide PdIndex, Need, Fits;
      if size == 0 {
        return 0, true;
      }
      hide MallocOutcome;
      ghost var s, hi := blocks, heapEnd;
      var temp, k := FindFit(size);
      if temp != 0 {
        if nodes[temp].size == Need(size) {
          address := TakeNode(temp, k);
          ExactOutcome(s, hi, size, nodes, mallocHead, k, blocks, address, HasTable(hi));
          return address, true;
        }
        address, intact := SplitBlocks(temp, size, k);
        SplitOutcome(s, hi, size, nodes, mallocHead, k, blocks, address, HasTable(hi));
        NoGrowthForetold(mmu.Tables(), mmu.pmm.maxBlocks, mallocHead, hi, heapEnd, Fits(size), intact);
        return;
      }
      AddressesBelow(nodes, mallocHead, heapEnd, blocks);
      address, intact := MallocMorePages(size);
      GrowOutcome(s, hi, size, nodes, mallocHead, heapEnd, blocks, intact, InMemory(), HasTable(hi));
      if intact && size < PAGE_SIZE {
        var cur := SearchBeforeLast(address, s);
      }
    }

    /** The call that a program makes: when `malloc_head` is 0 it sets up the heap, otherwise it allocates and
        merges. */
    method SysMalloc(bytes: uint32) returns (ptr: uint32, intact: bool)
      requires mallocHead == 0 ==> mmu.Valid() && 0 < mallocVirtAddress && mallocVirtAddress + 0x10_0000 < 0x1_0000_0000
      requires mallocHead != 0 ==> Valid()
      modifies this, mmu.ram, mmu.pmm`usedBlocks, mmu.pmm.memoryMap
      ensures mmu.Valid() && (intact ==> Valid()) && (old(mallocHead) != 0 ==> mallocHead == old(mallocHead))
      ensures old(mallocHead) == 0 ==>
                && (intact <==> InMemory()) && mallocHead == old(mallocVirtAddress)
                && (intact ==> HeapState(blocks, heapEnd) == FreshHeap(mallocHead) && ptr == mallocHead + 20)
                && heapEnd == mallocHead + 0x10_0000
                && GrowthRule(old(mmu.Tables()), mmu.Tables(), mmu.directory / 4096, mallocHead, mallocHead, 256,
                              mmu.pmm.maxBlocks)
                && SupplyRule(old(mmu.Tables()), mmu.Tables(), mmu.directory / 4096, mallocHead, mallocHead, 256,
                              mmu.pmm.maxBlocks)
      ensures old(mallocHead) != 0 ==>
                var h := HeapState(old(blocks), old(heapEnd));
                && Foretold(old(mmu.Tables()), mmu.Tables(), mmu.pmm.maxBlocks, mallocHead, h.end, heapEnd,
                            PagesFor(h, Malloc(bytes)), Possible(h, Malloc(bytes)), intact)
                && (intact <==> Possible(h, Malloc(bytes)) && InMemory())
                && (intact ==> HeapState(blocks, heapEnd) == After(h, Malloc(bytes)))
                && (intact ==> ptr == ResultOf(h, Malloc(bytes)))
                && (!Possible(h, Malloc(bytes)) && HasTable(h.end) ==> !IsTiled(nodes, mallocHead, heapEnd))
    {
      hide TiledBy, IsTiled, Separate, Read, AfterMalloc, PageBytes, MergePass, KeepsTiling, FirstFitting, PagesTaken;
      hide Backed, PdIndex, GrowthRule, SupplyRule, Foretold, PagesFor;
      if mallocHead == 0 {
        ptr, intact := MallocInit();
        return;
      }
      ptr, intact := MallocNext(bytes);
      if intact {
        MergeFreeBlocks();
      }
    }

    /** The first two calls of a program while `malloc_head` is 0: the second returns the address that the first
        returned, and so the same bytes, iff its request and two headers fit in the first block. Then both are served if
        there are 256 frames in a row off the bitmap, and room for the table. */
    method FirstTwoCalls(first: uint32, second: uint32) returns (p: uint32, q: uint32, intact: bool)
      requires mallocHead == 0 && second > 0
      requires mmu.Valid() && 0 < mallocVirtAddress && mallocVirtAddress + 0x10_0000 < 0x1_0000_0000
      modifies this, mmu.ram, mmu.pmm`usedBlocks, mmu.pmm.memoryMap
      ensures intact ==> Valid() && (q == p <==> second + 2 * HEADER <= 0x10_0000)
      ensures intact ==>
                (p + first <= q || q + second <= p <==>
                 first == 0 || (second + 2 * HEADER > 0x10_0000 && first <= 0x10_0000 - HEADER))
      ensures var v, a := old(mmu.Tables()), old(mallocVirtAddress);
              && Backed(v, mmu.directory / 4096, a, a) && RoomForTables(v, mmu.pmm.maxBlocks, a, a, 256)
              && GoodFit(v.used, mmu.pmm.maxBlocks, 256) && second + 2 * HEADER <= 0x10_0000
              ==> intact
    {
      hide TiledBy, IsTiled, Separate, Read, Possible, After, MallocResult, Backed, PdIndex, RoomForTables, GoodFit;
      hide SupplyRule, Supply, PagesFor;
      p, intact := SysMalloc(first);
      if !intact {
        return p, 0, false;
      }
      ghost var head := mallocHead;
      HeadOfList(nodes, mallocHead, heapEnd, blocks, 0);
      SecondCallFits(head, second);
      q, intact := SysMalloc(second);
      if intact {
        SecondCallRepeats(head, first, second);
      }
    }

    /** Frees the block at an address and merges, as `malloc_free` is meant to. */
    method Release(node: nat)
      requires Valid()
      modifies this`nodes, this`blocks
      ensures Valid() && HeapState(blocks, heapEnd) == After(HeapState(old(blocks), heapEnd), Free(node))
    {
      hide TiledBy, Separate, Read, MergePass, Backed, Released;
      var temp := mallocHead;
      ghost var k := 0;
      HeadOfList(nodes, mallocHead, heapEnd, blocks, 0);
      while temp != 0
        invariant k <= |blocks| && temp == (if k < |blocks| then blocks[k].address else 0)
        invariant k < |blocks| ==> temp != 0
        invariant forall i | 0 <= i < k :: blocks[i].address != node
        invariant blocks == old(blocks) && nodes == old(nodes)
        decreases |blocks| - k
      {
        HeadOfList(nodes, mallocHead, heapEnd, blocks, k);
        if temp == node {
          nodes := nodes[temp := nodes[temp].(free := true)];
          blocks := blocks[k := blocks[k].(free := true)];
          SetFree(old(nodes), mallocHead, heapEnd, old(blocks), k, true);
          NodeReleased(old(nodes), mallocHead, heapEnd, old(blocks), k);
          MergeFreeBlocks();
          return;
        }
        temp := nodes[temp].next;
        k := k + 1;
        if k < |blocks| {
          HeadOfList(nodes, mallocHead, heapEnd, blocks, k);
        }
      }
    }

    /** One operation of a run. */
    method Perform(op: HeapOp) returns (ptr: uint32, intact: bool)
      requires Valid()
      modifies this, mmu.ram, mmu.pmm`usedBlocks, mmu.pmm.memoryMap
      ensures mmu.Valid() && mallocHead == old(mallocHead) && (intact ==> Valid())
      ensures var h := HeapState(old(blocks), old(heapEnd));
              && (intact ==> Possible(h, op) && HeapState(blocks, heapEnd) == After(h, op))
              && (intact ==> ptr == ResultOf(h, op))
              && (!intact ==> op.Malloc? && !(Possible(h, op) && InMemory()))
              && (!Possible(h, op) && HasTable(h.end) ==> !IsTiled(nodes, mallocHead, heapEnd))
              && Foretold(old(mmu.Tables()), mmu.Tables(), mmu.pmm.maxBlocks, mallocHead, h.end, heapEnd,
                          PagesFor(h, op), Possible(h, op), intact)
    {
      hide TiledBy, IsTiled, Separate, Read, Possible, Backed, PdIndex, After, ResultOf, Foretold;
      HeadOfList(nodes, mallocHead, heapEnd, blocks, 0);
      OnlyMallocFails(HeapState(blocks, heapEnd), op);
      NoGrowthForetold(mmu.Tables(), mmu.pmm.maxBlocks, mallocHead, heapEnd, heapEnd, true, true);
      match op {
        case Malloc(size) =>
          ptr, intact := SysMalloc(size);
        case Free(address) =>
          Release(address);
          return 0, true;
        case Merge =>
          MergeFreeBlocks();
          return 0, true;
      }
    }

    /** Runs a list of operations up to the first that the heap does not survive. Until then the blocks are those of
        the run, and the results those of its allocations. The heap survives a run whose requests keep the tiling if
        supplies are there, before it starts, for all the pages it needs. In general the views, the tables before each
        operation, foretell whether it survives that one. */
    method Execute(ops: seq<HeapOp>) returns (done: nat, results: seq<uint32>, ghost views: seq<View>)
      requires Valid()
      modifies this, mmu.ram, mmu.pmm`usedBlocks, mmu.pmm.memoryMap
      ensures done <= |ops| && AllPossible(HeapState(old(blocks), old(heapEnd)), ops[..done])
      ensures var g := AfterAll(HeapState(old(blocks), old(heapEnd)), ops[..done]);
              if done == |ops| then Valid() && HeapState(blocks, heapEnd) == g
              else
                && ops[done].Malloc? && mmu.Valid() && mallocHead == old(mallocHead) && g.end < 0x1_0000_0000
                && !(Possible(g, ops[done]) && InMemory())
                && (!Possible(g, ops[done]) && HasTable(g.end) ==> !IsTiled(nodes, mallocHead, heapEnd))
      ensures |results| == done
      ensures forall i | 0 <= i < done ::
                results[i] == ResultOf(StateAt(HeapState(old(blocks), old(heapEnd)), ops[..done], i), ops[i])
      ensures old(Provided(mmu.Tables(), mmu.pmm.maxBlocks, HeapState(blocks, heapEnd), ops)) ==> done == |ops|
      ensures |views| == done + 1 && views[0] == old(mmu.Tables())
      ensures forall i | 0 <= i < done ::
                var h := StateAt(HeapState(old(blocks), old(heapEnd)), ops[..done], i);
                Foretold(views[i], views[i + 1], mmu.pmm.maxBlocks, mallocHead, h.end, After(h, ops[i]).end,
                         PagesFor(h, ops[i]), true, true)
      ensures done < |ops| ==>
                var g := AfterAll(HeapState(old(blocks), old(heapEnd)), ops[..done]);
                Foretold(views[done], mmu.Tables(), mmu.pmm.maxBlocks, mallocHead, g.end, heapEnd,
                         PagesFor(g, ops[done]), Possible(g, ops[done]), false)
    {
      hide TiledBy, IsTiled, Separate, Read, Possible, After, Backed, PdIndex, StateAt, ResultOf, Foretold, PagesFor;
      hide Provided;
      ghost var h := HeapState(blocks, heapEnd);
      ghost var limit, provided := mmu.pmm.maxBlocks, Provided(mmu.Tables(), mmu.pmm.maxBlocks, h, ops);
      done, results, views := 0, [], [mmu.Tables()];
      assert ops[..0] == [] && ops[0..] == ops;
      while done < |ops|
        invariant done <= |ops| && Valid() && mallocHead == old(mallocHead) && AllPossible(h, ops[..done])
        invariant HeapState(blocks, heapEnd) == AfterAll(h, ops[..done]) && |results| == done
        invariant forall i | 0 <= i < done :: results[i] == ResultOf(StateAt(h, ops[..done], i), ops[i])
        invariant |views| == done + 1 && views[0] == old(mmu.Tables()) && views[done] == mmu.Tables()
        invariant forall i | 0 <= i < done ::
            var g := StateAt(h, ops[..done], i);
            Foretold(views[i], views[i + 1], limit, mallocHead, g.end, After(g, ops[i]).end, PagesFor(g, ops[i]), true,
                     true)
        invariant provided ==> Provided(mmu.Tables(), limit, HeapState(blocks, heapEnd), ops[done..])
      {
        ghost var v, g := mmu.Tables(), HeapState(blocks, heapEnd);
        var ptr, intact := Perform(ops[done]);
        if provided {
          StillProvided(v, mmu.Tables(), limit, mallocHead, g, ops[done..], heapEnd, intact);
        }
        if !intact {
          return;
        }
        OneMoreDone(h, ops, done);
        assert ops[done..][1..] == ops[done + 1..];
        results, done, views := results + [ptr], done + 1, views + [mmu.Tables()];
      }
      assert ops[..done] == ops;
    }

    /** The walk of `malloc_free` tests the head again and again: it frees the head, or does nothing for a heap of one
        block, or never ends. */
    method MallocFree(ptr: uint32) returns (outcome: FreeOutcome)
      requires Valid()
      modifies this`nodes, this`blocks
      ensures Valid()
      ensures |old(blocks)| == 1 ==> outcome == Ignored && blocks == old(blocks)
      ensures |old(blocks)| > 1 && old(nodes)[mallocHead].address != ptr ==> outcome == Spins && blocks == old(blocks)
      ensures |old(blocks)| > 1 && old(nodes)[mallocHead].address == ptr ==>
                outcome == Freed && blocks == After(HeapState(old(blocks), heapEnd), Free(mallocHead)).blocks
    {
      hide TiledBy, Separate, Read, MergePass, Released;
      HeadOfList(nodes, mallocHead, heapEnd, blocks, 0);
      if |blocks| > 1 {
        HeadOfList(nodes, mallocHead, heapEnd, blocks, 1);
      }
      if nodes[mallocHead].next == 0 {
        return Ignored;
      }
      if nodes[mallocHead].address != ptr {
        return Spins;
      }
      ghost var before, s := nodes, blocks;
      nodes := nodes[mallocHead := nodes[mallocHead].(free := true)];
      blocks := s[0 := s[0].(free := true)];
      SetFree(before, mallocHead, heapEnd, s, 0, true);
      HeadReleased(before, mallocHead, heapEnd, s);
      MergeFreeBlocks();
      return Freed;
    }
  }
}
