/** Which paths resolve differently once a file has been created. */
module PathEffects {
  import opened Bitwise
  import opened DiskFormat
  import opened Paths
  import opened FileCreation
  import opened FileLookup

  function Blocks(dir: Inode): nat { BytesToBlocks(dir.size) }

  /** The names that path resolution ever looks up. */
  predicate IsName(file: seq<byte>) {
    CString(file) && |file| < NAME_LIMIT
  }

  /** Inode n lies in the table, which ends where data blocks start. */
  predicate InTable(f: uint32, dataStart: nat, n: uint32) {
    f + n / 64 < dataStart
  }

  /** Inode d is in place and its blocks are data blocks. The code looks names up in it whatever its type. */
  ghost predicate Searchable(disk: seq<DiskBlock>, f: uint32, dataStart: nat, d: uint32) {
    var dir := InodeAt(disk, f, d);
    && d != 0 && InTable(f, dataStart, d) && dir.iNumber == d
    && Blocks(dir) <= 7 && (forall i | 0 <= i < Blocks(dir) :: dataStart <= dir.direct[i] < |disk|)
  }

  /** An entry leads to an inode with the number it holds. */
  ghost predicate EntryLeads(disk: seq<DiskBlock>, f: uint32, dataStart: nat, m: uint32) {
    m != 0 ==> InTable(f, dataStart, m) && InodeAt(disk, f, m).iNumber == m
  }

  /** The inodes dirs are in order: own blocks, and entries that lead to inodes in the table. Besides the directories
      they may be files whose contents, read as entries, do the same. */
  ghost predicate Healthy(disk: seq<DiskBlock>, f: uint32, dataStart: nat, dirs: set<uint32>) {
    && dataStart <= |disk| <= 0x10_0000
    && (forall d | d in dirs :: Searchable(disk, f, dataStart, d))
    && (forall d, e, i, j | d in dirs && e in dirs && (d != e || i != j)
          && 0 <= i < Blocks(InodeAt(disk, f, d)) && 0 <= j < Blocks(InodeAt(disk, f, e)) && i < 7 && j < 7 ::
          InodeAt(disk, f, d).direct[i] != InodeAt(disk, f, e).direct[j])
    && (forall d, file | d in dirs && IsName(file) ::
          EntryLeads(disk, f, dataStart, EntryFor(disk, InodeAt(disk, f, d), file, 0)))
  }

  /** Inode `number` is new: no directory, and no entry names it. */
  ghost predicate Fresh(disk: seq<DiskBlock>, f: uint32, dirs: set<uint32>, number: uint32) {
    && number != 0 && number !in dirs
    && forall d, file | d in dirs && IsName(file) :: EntryFor(disk, InodeAt(disk, f, d), file, 0) != number
  }

  /** The conditions under which the call makes a file in directory c.parent. */
  ghost predicate Sound(c: Creation, dataStart: nat, dirs: set<uint32>) {
    && c.Possible() && Healthy(c.disk, c.f, dataStart, dirs) && Fresh(c.disk, c.f, dirs, c.number)
    && InTable(c.f, dataStart, c.number)
    && c.parent.iNumber in dirs && c.parent == InodeAt(c.disk, c.f, c.parent.iNumber)
    && EntryFor(c.disk, c.parent, c.name, 0) == 0
    && SlotBlock(c.disk, c.parent, 0) < Blocks(c.parent)
  }

  /** The block that gets the entry, and its slot. */
  ghost function Slot(c: Creation): (r: (nat, nat))
    requires c.Possible() && SlotBlock(c.disk, c.parent, 0) < Blocks(c.parent)
    ensures r.0 < Blocks(c.parent) && r.1 < 64 && EntryNumber(c.disk[c.parent.direct[r.0]], r.1) == 0
  {
    var i := SlotBlock(c.disk, c.parent, 0);
    (i, FreeSlot(c.disk[c.parent.direct[i]], 0))
  }

  lemma {:induction false} SameSlot(disk: seq<DiskBlock>, disk': seq<DiskBlock>, dir: Inode, i: nat)
    requires DirOnDisk(disk, dir) && |disk'| == |disk| && i <= Blocks(dir)
    requires forall k | 0 <= k < Blocks(dir) :: disk'[dir.direct[k]] == disk[dir.direct[k]]
    ensures SlotBlock(disk', dir, i) == SlotBlock(disk, dir, i)
    decreases Blocks(dir) - i
  {
    hide BytesToBlocks, FreeSlot;
    if i < Blocks(dir) {
      SameSlot(disk, disk', dir, i + 1);
    }
  }

  /** Data blocks after the call: the entry is in its slot, and nothing else changed. */
  lemma DataBlocks(c: Creation, dataStart: nat, dirs: set<uint32>)
    requires Sound(c, dataStart, dirs)
    ensures var s := Slot(c); var b := c.parent.direct[s.0];
            forall x: nat | dataStart <= x < |c.disk| ::
              c.Result()[x] == if x == b then Patch(c.disk[b], 64 * s.1, EntryRecord(c.number, c.name)) else c.disk[x]
  {
    hide InodeAt, EntryFor, EntryRecord, EncodeInode, Patch, BytesToBlocks, WithInode;
    WithInodeBlocks(c.disk, c.f, c.File());
    var d1 := c.DiskWithFile();
    assert Searchable(c.disk, c.f, dataStart, c.parent.iNumber);
    assert forall x: nat | dataStart <= x < |c.disk| :: d1[x] == c.disk[x];
    SameSlot(c.disk, d1, c.parent, 0);
    WithInodeBlocks(c.DiskWithEntry(), c.f, c.GrownParent());
  }

  /** The entry is put behind the inode table. */
  lemma TableKept(c: Creation, dataStart: nat, dirs: set<uint32>)
    requires Sound(c, dataStart, dirs)
    ensures c.Possible() && dataStart <= |c.disk| <= 0x10_0000
    ensures forall x: nat | x < dataStart :: c.DiskWithEntry()[x] == c.DiskWithFile()[x]
  {
    hide InodeAt, EntryFor, EntryRecord, Patch, BytesToBlocks, FreeSlot, SlotBlock, WithInode, EncodeInode;
    assert Searchable(c.disk, c.f, dataStart, c.parent.iNumber);
  }

  /** Inodes after the call: the new one, the grown directory, and all others as before. */
  lemma Inodes(c: Creation, dataStart: nat, dirs: set<uint32>, m: uint32)
    requires Sound(c, dataStart, dirs) && InTable(c.f, dataStart, m)
    ensures InodeAt(c.Result(), c.f, m)
         == if m == c.parent.iNumber then c.GrownParent()
            else if m == c.number then c.File()
            else InodeAt(c.disk, c.f, m)
  {
    hide InodeAt, Sound, BytesToBlocks, WithInode, WithEntry, EntryRecord, UpdateSector, DirOnDisk;
    TableKept(c, dataStart, dirs);
    var d1, d2 := c.DiskWithFile(), c.DiskWithEntry();
    TableWrite(c.disk, c.f, dataStart, c.File(), m);
    SameInode(d1, d2, c.f, dataStart, m);
    TableWrite(d2, c.f, dataStart, c.GrownParent(), m);
  }

  lemma TableWrite(disk: seq<DiskBlock>, f: uint32, dataStart: nat, n: Inode, m: uint32)
    requires OnDisk(disk, f, n.iNumber) && InTable(f, dataStart, m) && dataStart <= |disk|
    ensures UpdateSector(n.iNumber, f) / 8 < |disk|
    ensures InodeAt(WithInode(disk, f, n), f, m) == if m == n.iNumber then n else InodeAt(disk, f, m)
  {
    hide InodeAt, WithInode, EncodeInode, Patch, UpdateSector;
    WithInodeBlocks(disk, f, n);
    ReadOverWrite(disk, f, n, m);
  }

  lemma SameInode(disk: seq<DiskBlock>, disk': seq<DiskBlock>, f: uint32, dataStart: nat, m: uint32)
    requires InTable(f, dataStart, m) && dataStart <= |disk| <= 0x10_0000 && |disk'| == |disk|
    requires forall x: nat | x < dataStart :: disk'[x] == disk[x]
    ensures InodeAt(disk', f, m) == InodeAt(disk, f, m)
  {
    hide InodeAt, DecodeInode, InodeSector, UpdateSector, RecordIn;
    InodeRecord(disk, f, m);
    InodeRecord(disk', f, m);
  }

  /** The blocks of directory d before and after: the same, but for the slot in the parent. */
  lemma DirBlocks(c: Creation, dataStart: nat, dirs: set<uint32>, d: uint32)
    requires Sound(c, dataStart, dirs) && d in dirs
    ensures var dir, dir' := InodeAt(c.disk, c.f, d), InodeAt(c.Result(), c.f, d); var s := Slot(c);
            && Blocks(dir') == Blocks(dir) && dir'.iNumber == d
            && forall i: nat | i < Blocks(dir) ::
                 FileBlock(c.Result(), dir', i)
                 == if d == c.parent.iNumber && i == s.0
                    then Patch(FileBlock(c.disk, dir, i), 64 * s.1, EntryRecord(c.number, c.name))
                    else FileBlock(c.disk, dir, i)
  {
    hide InodeAt, EntryFor, EntryRecord, Patch, BytesToBlocks, FreeSlot, SlotBlock, DeviceBlock;
    hide Creation.Result;
    assert Searchable(c.disk, c.f, dataStart, d) && Searchable(c.disk, c.f, dataStart, c.parent.iNumber);
    Inodes(c, dataStart, dirs, d);
    DataBlocks(c, dataStart, dirs);
  }

  /** In every directory every name leads to the same inode number as before, but the new name in the parent. */
  lemma DirLookup(c: Creation, dataStart: nat, dirs: set<uint32>, d: uint32, file: seq<byte>)
    requires Sound(c, dataStart, dirs) && d in dirs && IsName(file)
    ensures EntryFor(c.Result(), InodeAt(c.Result(), c.f, d), file, 0)
         == if d == c.parent.iNumber && file == c.name then c.number
            else EntryFor(c.disk, InodeAt(c.disk, c.f, d), file, 0)
  {
    hide InodeAt, EntryFor, EntryRecord, Patch, BytesToBlocks, FreeSlot, SlotBlock, FileBlock, EntryNumber;
    DirBlocks(c, dataStart, dirs, d);
    var dir, dir' := InodeAt(c.disk, c.f, d), InodeAt(c.Result(), c.f, d);
    var s := Slot(c);
    if d == c.parent.iNumber && file == c.name {
      NewNameFound(c.disk, dir, c.Result(), dir', c.number, c.name, 0, s.0, s.1);
    } else if d == c.parent.iNumber {
      SlotEmpty(c, dataStart, dirs);
      OtherNameFound(c.disk, dir, c.Result(), dir', c.number, c.name, file, 0);
    } else {
      SameBlocksFind(c.disk, dir, c.Result(), dir', file, 0);
    }
  }

  lemma SlotEmpty(c: Creation, dataStart: nat, dirs: set<uint32>)
    requires Sound(c, dataStart, dirs)
    ensures var s := Slot(c); EntryNumber(FileBlock(c.disk, c.parent, s.0), s.1) == 0
  {
    hide InodeAt, EntryFor, BytesToBlocks;
    assert Searchable(c.disk, c.f, dataStart, c.parent.iNumber);
  }

  lemma {:induction false} SameBlocksFind(disk: seq<DiskBlock>, dir: Inode, disk': seq<DiskBlock>, dir': Inode,
                                          file: seq<byte>, i: nat)
    requires Blocks(dir') == Blocks(dir)
    requires forall k: nat | k < Blocks(dir) :: FileBlock(disk', dir', k) == FileBlock(disk, dir, k)
    ensures EntryFor(disk', dir', file, i) == EntryFor(disk, dir, file, i)
    decreases Blocks(dir) - i
  {
    hide BytesToBlocks, FileBlock;
    if i < Blocks(dir) {
      SameBlocksFind(disk, dir, disk', dir', file, i + 1);
    }
  }

  /** Every component but the last leads to one of dirs, or the walk ends there for want of the name. */
  ghost predicate StaysWithin(disk: seq<DiskBlock>, f: uint32, dirs: set<uint32>, dir: Inode, comps: seq<seq<byte>>)
    requires |comps| > 0
    decreases |comps|
  {
    |comps| > 1 && |comps[0]| < NAME_LIMIT ==>
      var n := Lookup(disk, f, dir, comps[0], 0);
      n.iNumber == 0 || (n.iNumber in dirs && StaysWithin(disk, f, dirs, n, comps[1..]))
  }

  /** Some component is the new name, looked up in the directory that gets it. */
  ghost predicate NamesNewFile(c: Creation, dir: Inode, comps: seq<seq<byte>>)
    requires |comps| > 0
    decreases |comps|
  {
    || (dir.iNumber == c.parent.iNumber && comps[0] == c.name)
    || (|comps| > 1 && |comps[0]| < NAME_LIMIT && Lookup(c.disk, c.f, dir, comps[0], 0).iNumber != 0
        && NamesNewFile(c, Lookup(c.disk, c.f, dir, comps[0], 0), comps[1..]))
  }

  /** One step of a walk before and after. */
  lemma StepUnchanged(c: Creation, dataStart: nat, dirs: set<uint32>, d: uint32, file: seq<byte>)
    requires Sound(c, dataStart, dirs) && d in dirs && IsName(file)
    requires !(d == c.parent.iNumber && file == c.name)
    ensures var n := Lookup(c.disk, c.f, InodeAt(c.disk, c.f, d), file, 0);
            var n' := Lookup(c.Result(), c.f, InodeAt(c.Result(), c.f, d), file, 0);
            && n'.iNumber == n.iNumber
            && (n.iNumber != 0 ==> n == InodeAt(c.disk, c.f, n.iNumber) && n' == InodeAt(c.Result(), c.f, n.iNumber))
  {
    hide InodeAt, EntryFor, BytesToBlocks, FreeSlot, SlotBlock, Lookup, WithInode, WithEntry;
    var dir := InodeAt(c.disk, c.f, d);
    DirLookup(c, dataStart, dirs, d, file);
    LookupByNumber(c.disk, c.f, dir, file, 0);
    LookupByNumber(c.Result(), c.f, InodeAt(c.Result(), c.f, d), file, 0);
    var m := EntryFor(c.disk, dir, file, 0);
    assert EntryLeads(c.disk, c.f, dataStart, m);
    if m != 0 {
      Inodes(c, dataStart, dirs, m);
    }
  }

  /** A walk that does not name the new file ends at the same inode number as before. */
  lemma {:induction false} WalkUnchanged(c: Creation, dataStart: nat, dirs: set<uint32>, d: uint32,
                                         comps: seq<seq<byte>>)
    requires Sound(c, dataStart, dirs) && d in dirs && |comps| > 0 && forall x | x in comps :: CString(x)
    requires StaysWithin(c.disk, c.f, dirs, InodeAt(c.disk, c.f, d), comps)
    requires !NamesNewFile(c, InodeAt(c.disk, c.f, d), comps)
    ensures var n := Walk(c.disk, c.f, InodeAt(c.disk, c.f, d), comps, true);
            var n' := Walk(c.Result(), c.f, InodeAt(c.Result(), c.f, d), comps, true);
            n'.iNumber == n.iNumber && (n.iNumber != 0 ==> n' == InodeAt(c.Result(), c.f, n.iNumber))
    decreases |comps|
  {
    hide InodeAt, Lookup, Sound, Creation.Result;
    assert comps[0] in comps;
    NumberOfDirectory(c, dataStart, dirs, d);
    if |comps[0]| < NAME_LIMIT {
      StepUnchanged(c, dataStart, dirs, d, comps[0]);
      var n := Lookup(c.disk, c.f, InodeAt(c.disk, c.f, d), comps[0], 0);
      if n.iNumber != 0 && |comps| > 1 {
        assert forall x | x in comps[1..] :: x in comps;
        WalkUnchanged(c, dataStart, dirs, n.iNumber, comps[1..]);
      }
    }
  }

  lemma NumberOfDirectory(c: Creation, dataStart: nat, dirs: set<uint32>, d: uint32)
    requires Sound(c, dataStart, dirs) && d in dirs
    ensures InodeAt(c.disk, c.f, d).iNumber == d && c.Possible()
  {
    assert Searchable(c.disk, c.f, dataStart, d);
  }

  /** A walk that arrives somewhere did not name the new file: there was none. */
  lemma {:induction false} ArrivesElsewhere(c: Creation, dataStart: nat, dirs: set<uint32>, d: uint32,
                                            comps: seq<seq<byte>>)
    requires Sound(c, dataStart, dirs) && d in dirs && |comps| > 0 && forall x | x in comps :: CString(x)
    requires StaysWithin(c.disk, c.f, dirs, InodeAt(c.disk, c.f, d), comps)
    requires Walk(c.disk, c.f, InodeAt(c.disk, c.f, d), comps, true).iNumber != 0
    ensures !NamesNewFile(c, InodeAt(c.disk, c.f, d), comps)
    decreases |comps|
  {
    hide InodeAt, Lookup, Sound, EntryFor;
    assert comps[0] in comps;
    NumberOfDirectory(c, dataStart, dirs, d);
    NameAbsent(c, dataStart, dirs);
    if |comps| > 1 {
      assert forall x | x in comps[1..] :: x in comps;
      StepUnchanged(c, dataStart, dirs, d, comps[0]);
      var n := Lookup(c.disk, c.f, InodeAt(c.disk, c.f, d), comps[0], 0);
      ArrivesElsewhere(c, dataStart, dirs, n.iNumber, comps[1..]);
    }
  }

  lemma NameAbsent(c: Creation, dataStart: nat, dirs: set<uint32>)
    requires Sound(c, dataStart, dirs)
    ensures Lookup(c.disk, c.f, InodeAt(c.disk, c.f, c.parent.iNumber), c.name, 0).iNumber == 0
  {
    LookupByNumber(c.disk, c.f, c.parent, c.name, 0);
  }

  lemma {:induction false} SplitCStrings(path: seq<byte>)
    requires CString(path)
    ensures forall x | x in Split(path) :: CString(x)
  {
    if path != [] {
      SplitCStrings(path[1..]);
      assert path[0] in path;
      var rest := Split(path[1..]);
      assert forall x | x in rest[1..] :: x in rest;
      assert rest[0] in rest;
    }
  }

  /** The cached root and current directory are the inodes of directories on disk. */
  ghost predicate Cached(disk: seq<DiskBlock>, f: uint32, dirs: set<uint32>, dir: Inode) {
    dir.iNumber in dirs && dir == InodeAt(disk, f, dir.iNumber)
  }

  lemma CacheKept(c: Creation, dataStart: nat, dirs: set<uint32>, dir: Inode)
    requires Sound(c, dataStart, dirs) && Cached(c.disk, c.f, dirs, dir)
    ensures Cached(c.Result(), c.f, dirs, c.Cached(dir)) && c.Cached(dir).iNumber == dir.iNumber
  {
    hide InodeAt, EntryFor, BytesToBlocks, SlotBlock;
    assert Searchable(c.disk, c.f, dataStart, dir.iNumber);
    Inodes(c, dataStart, dirs, dir.iNumber);
  }

  /** Where a path starts and what is left to walk from there. */
  function StartOf(root: Inode, cwd: Inode, path: seq<byte>): (Inode, seq<seq<byte>>) {
    if path != [] && path[0] == SLASH then (root, Split(path[1..])) else (cwd, Split(path))
  }

  lemma StartIsCString(root: Inode, cwd: Inode, path: seq<byte>)
    requires CString(path)
    ensures |StartOf(root, cwd, path).1| > 0 && forall x | x in StartOf(root, cwd, path).1 :: CString(x)
  {
    SplitCStrings(path);
    if path != [] {
      SplitCStrings(path[1..]);
    }
  }

  /** Every path through dirs that does not name the new file resolves to the same inode number as before,
      with the cached root and current directory as the call leaves them. */
  lemma OtherPathsUnchanged(c: Creation, dataStart: nat, dirs: set<uint32>, root: Inode, cwd: Inode, path: seq<byte>)
    requires Sound(c, dataStart, dirs) && CString(path)
    requires Cached(c.disk, c.f, dirs, root) && Cached(c.disk, c.f, dirs, cwd)
    requires var (dir, comps) := StartOf(root, cwd, path);
             |comps| > 0 && StaysWithin(c.disk, c.f, dirs, dir, comps) && !NamesNewFile(c, dir, comps)
    ensures var n := Resolve(c.disk, c.f, root, cwd, path, true);
            var n' := Resolve(c.Result(), c.f, c.Cached(root), c.Cached(cwd), path, true);
            n'.iNumber == n.iNumber && (n.iNumber != 0 ==> n' == InodeAt(c.Result(), c.f, n.iNumber))
  {
    hide InodeAt, Sound, Walk, StaysWithin, NamesNewFile, Split;
    CacheKept(c, dataStart, dirs, root);
    CacheKept(c, dataStart, dirs, cwd);
    StartIsCString(root, cwd, path);
    var (dir, comps) := StartOf(root, cwd, path);
    WalkUnchanged(c, dataStart, dirs, dir.iNumber, comps);
  }

  /** The parent of the path resolves after the call to the grown directory. */
  lemma ParentAfter(c: Creation, dataStart: nat, dirs: set<uint32>, root: Inode, cwd: Inode, path: seq<byte>)
    requires Sound(c, dataStart, dirs) && CString(path)
    requires Cached(c.disk, c.f, dirs, root) && Cached(c.disk, c.f, dirs, cwd)
    requires c.parent == Parent(c.disk, c.f, root, cwd, path)
    requires LastSlash(path) > 0 ==>
               var (dir, comps) := StartOf(root, cwd, path[..LastSlash(path)]);
               |comps| > 0 && StaysWithin(c.disk, c.f, dirs, dir, comps)
    ensures c.Possible()
    ensures Parent(c.Result(), c.f, c.Cached(root), c.Cached(cwd), path) == c.GrownParent()
  {
    hide InodeAt, Walk, StaysWithin, NamesNewFile, Split, LastSlash, Healthy, Fresh, EntryFor, BytesToBlocks, SlotBlock;
    CacheKept(c, dataStart, dirs, root);
    CacheKept(c, dataStart, dirs, cwd);
    CacheKept(c, dataStart, dirs, c.parent);
    var i := LastSlash(path);
    if i > 0 {
      var dirPart := path[..i];
      StartIsCString(root, cwd, dirPart);
      var (dir, comps) := StartOf(root, cwd, dirPart);
      NotZero(c, dataStart, dirs);
      ArrivesElsewhere(c, dataStart, dirs, dir.iNumber, comps);
      OtherPathsUnchanged(c, dataStart, dirs, root, cwd, dirPart);
    }
  }

  lemma NotZero(c: Creation, dataStart: nat, dirs: set<uint32>)
    requires Sound(c, dataStart, dirs)
    ensures c.parent.iNumber != 0
  {
    assert Searchable(c.disk, c.f, dataStart, c.parent.iNumber);
  }

  /** The created path resolves to the new inode. */
  lemma CreatedPathResolves(c: Creation, dataStart: nat, dirs: set<uint32>, root: Inode, cwd: Inode, path: seq<byte>)
    requires Sound(c, dataStart, dirs) && CString(path)
    requires Cached(c.disk, c.f, dirs, root) && Cached(c.disk, c.f, dirs, cwd)
    requires c.parent == Parent(c.disk, c.f, root, cwd, path) && c.name == NamePart(path)
    requires LastSlash(path) > 0 ==>
               var (dir, comps) := StartOf(root, cwd, path[..LastSlash(path)]);
               |comps| > 0 && StaysWithin(c.disk, c.f, dirs, dir, comps)
    ensures Resolve(c.Result(), c.f, c.Cached(root), c.Cached(cwd), path, true)
         == Inode(c.number, 0, 4096, seq(24, _ => 0), [c.dataBlock, 0, 0, 0, 0, 0, 0], [0, 0, 0])
    ensures InodeAt(c.Result(), c.f, c.number)
         == Inode(c.number, 0, 4096, seq(24, _ => 0), [c.dataBlock, 0, 0, 0, 0, 0, 0], [0, 0, 0])
    ensures InodeAt(c.Result(), c.f, c.parent.iNumber) == c.parent.(size := c.parent.size + 64)
  {
    hide InodeAt, Parent, Resolve, StaysWithin, NamesNewFile, Healthy, Lookup, EntryFor, BytesToBlocks, SlotBlock;
    hide LastSlash;
    ParentAfter(c, dataStart, dirs, root, cwd, path);
    PathSplits(c.Result(), c.f, c.Cached(root), c.Cached(cwd), path);
    CacheKept(c, dataStart, dirs, c.parent);
    DirLookup(c, dataStart, dirs, c.parent.iNumber, c.name);
    LookupByNumber(c.Result(), c.f, c.GrownParent(), c.name, 0);
    Inodes(c, dataStart, dirs, c.number);
  }

  /** The directories stay in order, so that the next file can be created. */
  lemma HealthKept(c: Creation, dataStart: nat, dirs: set<uint32>)
    requires Sound(c, dataStart, dirs)
    ensures Healthy(c.Result(), c.f, dataStart, dirs)
  {
    hide InodeAt, EntryFor, BytesToBlocks, SlotBlock, WithInode, WithEntry;
    forall d | d in dirs
      ensures Searchable(c.Result(), c.f, dataStart, d)
      ensures InodeAt(c.Result(), c.f, d).direct == InodeAt(c.disk, c.f, d).direct
      ensures Blocks(InodeAt(c.Result(), c.f, d)) == Blocks(InodeAt(c.disk, c.f, d))
    {
      assert Searchable(c.disk, c.f, dataStart, d);
      Inodes(c, dataStart, dirs, d);
    }
    forall d, file | d in dirs && IsName(file)
      ensures EntryLeads(c.Result(), c.f, dataStart, EntryFor(c.Result(), InodeAt(c.Result(), c.f, d), file, 0))
    {
      DirLookup(c, dataStart, dirs, d, file);
      var m := EntryFor(c.disk, InodeAt(c.disk, c.f, d), file, 0);
      assert EntryLeads(c.disk, c.f, dataStart, m);
      Inodes(c, dataStart, dirs, c.number);
      if m != 0 {
        Inodes(c, dataStart, dirs, m);
      }
    }
  }
}
