/** What a path that goes on behind a new file's name leads to: the file's data block, which the code does not clear and
    searches like a directory. */
module LeftoverData {
  import opened Bitwise
  import opened DiskFormat
  import opened Paths
  import opened FileCreation
  import opened FileLookup
  import opened PathEffects

  /** The created path and what is asked for behind it, before and after: before, nothing is there; afterwards the data
      block of the new file is searched as if it were a directory. */
  lemma BehindNewFile(c: Creation, dataStart: nat, dirs: set<uint32>, root: Inode, cwd: Inode,
                      path: seq<byte>, rest: seq<byte>)
    requires Sound(c, dataStart, dirs) && Cached(c.disk, c.f, dirs, root) && Cached(c.disk, c.f, dirs, cwd)
    requires CString(path) && path != [] && c.parent == Parent(c.disk, c.f, root, cwd, path) && c.name == NamePart(path)
    requires LastSlash(path) > 0 ==>
               var (dir, comps) := StartOf(root, cwd, path[..LastSlash(path)]);
               |comps| > 0 && StaysWithin(c.disk, c.f, dirs, dir, comps)
    ensures Resolve(c.disk, c.f, root, cwd, path + [SLASH] + rest, true) == ZeroInode()
    ensures Resolve(c.Result(), c.f, c.Cached(root), c.Cached(cwd), path + [SLASH] + rest, true)
         == Walk(c.Result(), c.f, c.File(), Split(rest), true)
  {
    hide InodeAt, Parent, Resolve, StaysWithin, Healthy, Lookup, EntryFor, BytesToBlocks, SlotBlock, LastSlash, Split;
    CreatedPathResolves(c, dataStart, dirs, root, cwd, path);
    ResolveBehind(c.Result(), c.f, c.Cached(root), c.Cached(cwd), path, rest);
    ResolveBehind(c.disk, c.f, root, cwd, path, rest);
    PathSplits(c.disk, c.f, root, cwd, path);
    NameAbsent(c, dataStart, dirs);
  }

  /** The new file's data block is no block of any of dirs. */
  ghost predicate OwnData(c: Creation, dataStart: nat, dirs: set<uint32>) {
    && dataStart <= c.dataBlock < |c.disk|
    && forall d, i | d in dirs && 0 <= i < Blocks(InodeAt(c.disk, c.f, d)) && i < 7 ::
         InodeAt(c.disk, c.f, d).direct[i] != c.dataBlock
  }

  /** What the block held before the call is what is searched. */
  lemma DataBlockKept(c: Creation, dataStart: nat, dirs: set<uint32>)
    requires Sound(c, dataStart, dirs) && OwnData(c, dataStart, dirs)
    ensures Blocks(c.File()) == 1 && FileBlock(c.Result(), c.File(), 0) == c.disk[c.dataBlock]
  {
    hide InodeAt, EntryFor, EntryRecord, Patch, BytesToBlocks, FreeSlot, SlotBlock;
    DataBlocks(c, dataStart, dirs);
    assert BytesToBlocks(FS_BLOCK) == 1;
    assert Searchable(c.disk, c.f, dataStart, c.parent.iNumber);
  }

  /** An entry of the block, by name, that leads to an inode with a number. */
  ghost predicate Leads(c: Creation, block: DiskBlock, file: seq<byte>)
    requires c.Possible()
  {
    var j := FindEntry(block, file, 0);
    j < 64 && InodeAt(c.Result(), c.f, EntryNumber(block, j)).iNumber != 0
  }

  /** One name behind the created path is found iff an entry left over in the data block leads somewhere. */
  lemma FoundBehind(c: Creation, dataStart: nat, dirs: set<uint32>, comps: seq<seq<byte>>)
    requires Sound(c, dataStart, dirs) && OwnData(c, dataStart, dirs) && |comps| > 0
    ensures var found := |comps[0]| < NAME_LIMIT && Leads(c, c.disk[c.dataBlock], comps[0]);
            && (Walk(c.Result(), c.f, c.File(), comps, true).iNumber != 0 ==> found)
            && (|comps| == 1 && found ==> Walk(c.Result(), c.f, c.File(), comps, true).iNumber != 0)
  {
    hide InodeAt, BytesToBlocks, FileBlock, OwnData, Healthy, Fresh, EntryFor, SlotBlock, Creation.Result, Walk, Lookup;
    DataBlockKept(c, dataStart, dirs);
    OneBlockLookup(c.Result(), c.f, c.File(), comps[0]);
    FirstStep(c.Result(), c.f, c.File(), comps);
  }

  lemma FirstStep(disk: seq<DiskBlock>, f: uint32, dir: Inode, comps: seq<seq<byte>>)
    requires |comps| > 0
    ensures var n := Lookup(disk, f, dir, comps[0], 0); var found := |comps[0]| < NAME_LIMIT && n.iNumber != 0;
            && (Walk(disk, f, dir, comps, true).iNumber != 0 ==> found)
            && (|comps| == 1 && found ==> Walk(disk, f, dir, comps, true).iNumber != 0)
  {
    hide Lookup;
  }

  lemma OneBlockLookup(disk: seq<DiskBlock>, f: uint32, dir: Inode, file: seq<byte>)
    requires Blocks(dir) == 1
    ensures var block := FileBlock(disk, dir, 0); var j := FindEntry(block, file, 0);
            Lookup(disk, f, dir, file, 0) == if j < 64 then InodeAt(disk, f, EntryNumber(block, j)) else ZeroInode()
  {
    hide InodeAt, FindEntry, FileBlock, BytesToBlocks;
    assert Lookup(disk, f, dir, file, 1) == ZeroInode();
  }

  /** So all paths behind the created one keep leading nowhere iff the data block, which the call does not clear, holds
      no entry under a name without a slash that leads to an inode with a number. */
  lemma NothingBehindIff(c: Creation, dataStart: nat, dirs: set<uint32>)
    requires Sound(c, dataStart, dirs) && OwnData(c, dataStart, dirs)
    ensures (forall rest | CString(rest) :: Walk(c.Result(), c.f, c.File(), Split(rest), true).iNumber == 0)
       <==> forall file | IsName(file) && SLASH !in file :: !Leads(c, c.disk[c.dataBlock], file)
  {
    hide Sound, OwnData, Leads, Walk, Creation.Result;
    assert c.Possible() && c.dataBlock < |c.disk| by {
      PossibleData(c, dataStart, dirs);
    }
    if forall rest | CString(rest) :: Walk(c.Result(), c.f, c.File(), Split(rest), true).iNumber == 0 {
      forall file | IsName(file) && SLASH !in file
        ensures !Leads(c, c.disk[c.dataBlock], file)
      {
        SplitNoSlash(file);
        FoundBehind(c, dataStart, dirs, Split(file));
      }
    }
    if forall file | IsName(file) && SLASH !in file :: !Leads(c, c.disk[c.dataBlock], file) {
      forall rest | CString(rest)
        ensures Walk(c.Result(), c.f, c.File(), Split(rest), true).iNumber == 0
      {
        NoSlashInParts(rest);
        SplitCStrings(rest);
        assert Split(rest)[0] in Split(rest);
        FoundBehind(c, dataStart, dirs, Split(rest));
      }
    }
  }

  lemma PossibleData(c: Creation, dataStart: nat, dirs: set<uint32>)
    requires Sound(c, dataStart, dirs) && OwnData(c, dataStart, dirs)
    ensures c.Possible() && c.dataBlock < |c.disk|
  {
  }

  lemma {:induction false} NoSlashInParts(path: seq<byte>)
    ensures forall x | x in Split(path) :: SLASH !in x
  {
    if path != [] {
      NoSlashInParts(path[1..]);
      var rest := Split(path[1..]);
      assert forall x | x in rest[1..] :: x in rest;
      assert rest[0] in rest;
    }
  }

  /** A disk with an empty root directory: inode 1 in block 1, its data in block 2. Block 3 is free for a file. */
  function ExampleRoot(): Inode {
    Inode(1, FILE_TYPE_DIR, 64, seq(24, _ => 0), [2, 0, 0, 0, 0, 0, 0], [0, 0, 0])
  }

  function ExampleDisk(left: DiskBlock): seq<DiskBlock> {
    WithInode([ZeroBlock(), ZeroBlock(), ZeroBlock(), left], 1, ExampleRoot())
  }

  /** Making the file "a" there. */
  function ExampleCreation(left: DiskBlock): Creation {
    Creation(ExampleDisk(left), 1, ExampleRoot(), [97], 2, 3)
  }

  lemma {:induction false} ZeroBlockEmpty(file: seq<byte>, j: nat)
    requires j <= 64
    ensures FindEntry(ZeroBlock(), file, j) == 64
    decreases 64 - j
  {
    if j < 64 {
      assert EntryNumber(ZeroBlock(), j) == 0;
      ZeroBlockEmpty(file, j + 1);
    }
  }

  lemma ExampleFacts(left: DiskBlock)
    ensures var (disk, root) := (ExampleDisk(left), ExampleRoot());
            && |disk| == 4 && InodeAt(disk, 1, 1) == root && Blocks(root) == 1 && disk[3] == left
            && SlotBlock(disk, root, 0) == 0
            && forall file: seq<byte> :: EntryFor(disk, root, file, 0) == 0
  {
    hide WithInode, InodeAt, EncodeInode, NameIs, Patch;
    var blank, disk, root := [ZeroBlock(), ZeroBlock(), ZeroBlock(), left], ExampleDisk(left), ExampleRoot();
    WithInodeBlocks(blank, 1, root);
    ReadOverWrite(blank, 1, root, 1);
    assert disk[2] == ZeroBlock();
    assert BytesToBlocks(128) == 1;
    forall file: seq<byte>
      ensures EntryFor(disk, root, file, 0) == 0
    {
      ZeroBlockEmpty(file, 0);
      assert FileBlock(disk, root, 0) == ZeroBlock();
    }
    assert FreeSlot(ZeroBlock(), 0) == 0;
  }

  /** The conditions can be met: on this disk a first file can be made in the root directory. */
  lemma ExampleIsSound(left: DiskBlock)
    ensures Sound(ExampleCreation(left), 2, {1}) && OwnData(ExampleCreation(left), 2, {1})
    ensures Cached(ExampleDisk(left), 1, {1}, ExampleRoot())
  {
    hide ExampleDisk, InodeAt, EntryFor, SlotBlock, FreeSlot, NameIs;
    ExampleFacts(left);
  }

  /** A block never written since it held something else: its first entry reads as "b" for inode 1. */
  function Leftover(): DiskBlock { Patch(ZeroBlock(), 0, EntryRecord(1, [98])) }

  lemma LeftoverEntry()
    ensures FindEntry(Leftover(), [98], 0) == 0 && EntryNumber(Leftover(), 0) == 1
  {
    hide EntryRecord, NameIs, EntryNumber, Patch, RecordIn;
    PatchedRecord(ZeroBlock(), 0, EntryRecord(1, [98]), 0);
    NewEntryMatches(Leftover(), 0, 1, [98], [98]);
  }

  /** With it, "/a/b" leads nowhere before "/a" is made, and to the root directory afterwards. */
  lemma LeftoverBehindNewFile()
    ensures var c, root := ExampleCreation(Leftover()), ExampleRoot();
            && c.Possible() && Resolve(c.disk, c.f, root, root, [47, 97, 47, 98], true).iNumber == 0
            && Resolve(c.Result(), c.f, c.Cached(root), c.Cached(root), [47, 97, 47, 98], true).iNumber == 1
  {
    hide ExampleDisk, InodeAt, EntryFor, SlotBlock, NameIs, Leftover, Walk, Sound, OwnData, Resolve, Lookup, Cached;
    var c, root, path := ExampleCreation(Leftover()), ExampleRoot(), [47, 97];
    ExampleIsSound(Leftover());
    assert path + [SLASH] + [98] == [47, 97, 47, 98];
    assert LastSlash(path) == 0 by {
      assert path[..1] == [47];
    }
    BehindNewFile(c, 2, {1}, root, root, path, [98]);
    SplitNoSlash([98]);
    LeftoverWalk();
  }

  lemma LeftoverWalk()
    ensures var c := ExampleCreation(Leftover());
            c.Possible() && Walk(c.Result(), c.f, c.File(), [[98]], true).iNumber == 1
  {
    hide ExampleDisk, InodeAt, EntryFor, SlotBlock, NameIs, Leftover, FindEntry, FileBlock, Lookup;
    var c := ExampleCreation(Leftover());
    ExampleIsSound(Leftover());
    ExampleFacts(Leftover());
    DataBlockKept(c, 2, {1});
    OneBlockLookup(c.Result(), c.f, c.File(), [98]);
    LeftoverEntry();
    Inodes(c, 2, {1}, 1);
  }
}
