/** Creating a file makes its path resolve to it, and no other path resolve differently. */
module FileLookup {
  import opened Bitwise
  import opened DiskFormat
  import opened Paths
  import opened FileCreation

  /** The inode number stored with the first entry of this name, from block i on, or 0. */
  function EntryFor(disk: seq<DiskBlock>, dir: Inode, file: seq<byte>, i: nat): uint32
    decreases BytesToBlocks(dir.size) - i
  {
    if i >= BytesToBlocks(dir.size) then 0
    else
      var block := FileBlock(disk, dir, i);
      var j := FindEntry(block, file, 0);
      if j < 64 then EntryNumber(block, j) else EntryFor(disk, dir, file, i + 1)
  }

  lemma {:induction false} LookupByNumber(disk: seq<DiskBlock>, f: uint32, dir: Inode, file: seq<byte>, i: nat)
    ensures var m := EntryFor(disk, dir, file, i);
            Lookup(disk, f, dir, file, i) == if m == 0 then ZeroInode() else InodeAt(disk, f, m)
    decreases BytesToBlocks(dir.size) - i
  {
    hide BytesToBlocks, InodeAt;
    if i < BytesToBlocks(dir.size) && FindEntry(FileBlock(disk, dir, i), file, 0) == 64 {
      LookupByNumber(disk, f, dir, file, i + 1);
    }
  }

  /** After an update, a lookup that reaches the number of the inode returns the inode exactly. */
  lemma UpdatedInodeFound(disk: seq<DiskBlock>, f: uint32, n: Inode, dir: Inode, file: seq<byte>)
    requires OnDisk(disk, f, n.iNumber) && UpdateSector(n.iNumber, f) / 8 < |disk| && n.iNumber != 0
    requires EntryFor(WithInode(disk, f, n), dir, file, 0) == n.iNumber
    ensures Lookup(WithInode(disk, f, n), f, dir, file, 0) == n
  {
    hide EntryFor, WithInode, InodeAt;
    LookupByNumber(WithInode(disk, f, n), f, dir, file, 0);
    ReadOverWrite(disk, f, n, n.iNumber);
  }

  /** Whether a name shorter than its field matches is decided inside the record. */
  lemma EntryLocal(x: DiskBlock, y: DiskBlock, j: nat, file: seq<byte>)
    requires j < 64 && |file| < NAME_LIMIT && RecordIn(x, j) == RecordIn(y, j)
    ensures EntryNumber(x, j) == EntryNumber(y, j) && (EntryMatches(x, j, file) <==> EntryMatches(y, j, file))
  {
    forall k | 0 <= k < 60
      ensures NameChar(x, j, k) == NameChar(y, j, k)
    {
      assert RecordIn(x, j)[4 + k] == RecordIn(y, j)[4 + k];
    }
    assert RecordIn(x, j)[..4] == RecordIn(y, j)[..4];
    NumberOfRecord(x, j);
    NumberOfRecord(y, j);
  }

  lemma NumberOfRecord(x: DiskBlock, j: nat)
    requires j < 64
    ensures EntryNumber(x, j) == U32(RecordIn(x, j), 0)
  {
  }

  /** A new entry matches exactly its own name. */
  lemma NewEntryMatches(x: DiskBlock, j: nat, number: uint32, name: seq<byte>, file: seq<byte>)
    requires j < 64 && |name| < NAME_LIMIT && |file| < NAME_LIMIT && CString(name) && CString(file) && number != 0
    requires RecordIn(x, j) == EntryRecord(number, name)
    ensures EntryNumber(x, j) == number
    ensures EntryMatches(x, j, file) <==> file == name
  {
    var r := EntryRecord(number, name);
    NumberOfRecord(x, j);
    assert U32(r, 0) == number;
    forall k | 0 <= k < 60
      ensures NameChar(x, j, k) == CharAt(name, k)
    {
      assert NameChar(x, j, k) == RecordIn(x, j)[4 + k] == r[4 + k];
    }
    if EntryMatches(x, j, file) {
      NoZeroBefore(file, name);
    }
  }

  /** Two strings that agree up to and including the terminator of one are the same. */
  lemma NoZeroBefore(file: seq<byte>, name: seq<byte>)
    requires CString(name) && CString(file) && CharAt(name, |file|) == 0
    requires forall k | 0 <= k < |file| :: CharAt(name, k) == file[k]
    ensures file == name
  {
    if |name| < |file| {
      CharNotZero(file, |name|);
    }
  }

  lemma CharNotZero(s: seq<byte>, k: nat)
    requires CString(s) && k < |s|
    ensures s[k] != 0
  {
    assert s[k] in s;
  }

  /** y is x, or x with the new entry in an empty slot. */
  ghost predicate Extends(x: DiskBlock, y: DiskBlock, number: uint32, name: seq<byte>)
    requires |name| < NAME_LIMIT
  {
    y == x || exists k: nat :: k < 64 && EntryNumber(x, k) == 0 && y == Patch(x, 64 * k, EntryRecord(number, name))
  }

  lemma ExtendsEntry(x: DiskBlock, y: DiskBlock, number: uint32, name: seq<byte>, file: seq<byte>, j: nat)
    requires |name| < NAME_LIMIT && |file| < NAME_LIMIT && CString(name) && CString(file) && number != 0
    requires Extends(x, y, number, name) && file != name && j < 64
    ensures EntryMatches(y, j, file) <==> EntryMatches(x, j, file)
    ensures EntryMatches(x, j, file) ==> EntryNumber(y, j) == EntryNumber(x, j)
  {
    hide EntryNumber, NameIs, EntryRecord, Patch, RecordIn;
    if y != x {
      var k: nat :| k < 64 && EntryNumber(x, k) == 0 && y == Patch(x, 64 * k, EntryRecord(number, name));
      PatchedRecord(x, k, EntryRecord(number, name), j);
      if j == k {
        NewEntryMatches(y, j, number, name, file);
      } else {
        EntryLocal(x, y, j, file);
      }
    }
  }

  lemma {:induction false} ExtendsFind(x: DiskBlock, y: DiskBlock, number: uint32, name: seq<byte>, file: seq<byte>,
                                       j: nat)
    requires |name| < NAME_LIMIT && |file| < NAME_LIMIT && CString(name) && CString(file) && number != 0
    requires Extends(x, y, number, name) && file != name && j <= 64
    ensures FindEntry(y, file, j) == FindEntry(x, file, j)
    ensures var k := FindEntry(x, file, j); k < 64 ==> EntryNumber(y, k) == EntryNumber(x, k)
    decreases 64 - j
  {
    hide EntryNumber, NameIs, Extends;
    if j < 64 {
      ExtendsEntry(x, y, number, name, file, j);
      ExtendsFind(x, y, number, name, file, j + 1);
    }
  }

  /** The same directory before and after, block by block. */
  ghost predicate DirExtends(disk: seq<DiskBlock>, dir: Inode, disk': seq<DiskBlock>, dir': Inode, number: uint32,
                             name: seq<byte>)
    requires |name| < NAME_LIMIT
  {
    && BytesToBlocks(dir'.size) == BytesToBlocks(dir.size)
    && forall i: nat | i < BytesToBlocks(dir.size) ::
         Extends(FileBlock(disk, dir, i), FileBlock(disk', dir', i), number, name)
  }

  /** Another name is found as before. */
  lemma {:induction false} OtherNameFound(disk: seq<DiskBlock>, dir: Inode, disk': seq<DiskBlock>, dir': Inode,
                                          number: uint32, name: seq<byte>, file: seq<byte>, i: nat)
    requires |name| < NAME_LIMIT && |file| < NAME_LIMIT && CString(name) && CString(file) && number != 0
    requires DirExtends(disk, dir, disk', dir', number, name) && file != name
    ensures EntryFor(disk', dir', file, i) == EntryFor(disk, dir, file, i)
    decreases BytesToBlocks(dir.size) - i
  {
    hide BytesToBlocks, Extends, FileBlock;
    if i < BytesToBlocks(dir.size) {
      ExtendsFind(FileBlock(disk, dir, i), FileBlock(disk', dir', i), number, name, file, 0);
      OtherNameFound(disk, dir, disk', dir', number, name, file, i + 1);
    }
  }

  /** The new name is found in the block that got it, when no entry had that name. */
  lemma {:induction false} NewNameFound(disk: seq<DiskBlock>, dir: Inode, disk': seq<DiskBlock>, dir': Inode,
                                        number: uint32, name: seq<byte>, i: nat, k: nat, slot: nat)
    requires |name| < NAME_LIMIT && CString(name) && number != 0
    requires BytesToBlocks(dir'.size) == BytesToBlocks(dir.size) && i <= k < BytesToBlocks(dir.size)
    requires forall h: nat | h < BytesToBlocks(dir.size) && h != k ::
               FileBlock(disk', dir', h) == FileBlock(disk, dir, h)
    requires slot < 64
    requires FileBlock(disk', dir', k) == Patch(FileBlock(disk, dir, k), 64 * slot, EntryRecord(number, name))
    requires EntryFor(disk, dir, name, i) == 0
    ensures EntryFor(disk', dir', name, i) == number
    decreases k - i
  {
    hide BytesToBlocks, FileBlock, EntryNumber, NameIs, EntryRecord, Patch, RecordIn;
    var x, y := FileBlock(disk, dir, i), FileBlock(disk', dir', i);
    if i < k {
      NewNameFound(disk, dir, disk', dir', number, name, i + 1, k, slot);
    } else {
      forall j: nat | j < 64
        ensures EntryMatches(y, j, name) <==> j == slot
        ensures j == slot ==> EntryNumber(y, j) == number
      {
        PatchedRecord(x, slot, EntryRecord(number, name), j);
        if j == slot {
          NewEntryMatches(y, j, number, name, name);
        } else {
          EntryLocal(x, y, j, name);
        }
      }
      assert FindEntry(x, name, 0) == 64 && EntryMatches(y, slot, name);
    }
  }
}
