/** What creating a file does to the disk, and which paths it changes. */
module FileCreation {
  import opened Bitwise
  import opened DiskFormat
  import opened Paths

  /** dir_entry_t for a name that leaves room for its terminator. */
  function EntryRecord(number: uint32, name: seq<byte>): (r: Record)
    requires |name| < NAME_LIMIT
  {
    U32Bytes(number) + name + seq(NAME_LIMIT - |name|, _ => 0)
  }

  /** The bytes of an entry: the number, the lowest byte first, the name, and zeros. */
  lemma EntryBytes(number: uint32, name: seq<byte>)
    requires |name| < NAME_LIMIT
    ensures var r := EntryRecord(number, name);
            && r[0] == number % 0x100 && r[1] == number / 0x100 % 0x100
            && r[2] == number / 0x1_0000 % 0x100 && r[3] == number / 0x100_0000
            && r[4..4 + |name|] == name && forall k | 4 + |name| <= k < 64 :: r[k] == 0
  {
    hide U32;
    BytesOfU32(U32Bytes(number), 0, number);
  }

  /** The first empty slot from j on, or 64. */
  function FreeSlot(block: DiskBlock, j: nat): (k: nat)
    requires j <= 64
    ensures j <= k <= 64
    ensures k < 64 ==> EntryNumber(block, k) == 0
    ensures forall i | j <= i < k :: EntryNumber(block, i) != 0
    decreases 64 - j
  {
    if j == 64 then 64
    else if EntryNumber(block, j) == 0 then j
    else FreeSlot(block, j + 1)
  }

  /** The blocks of a directory are on disk, behind one of its seven pointers each. */
  predicate DirOnDisk(disk: seq<DiskBlock>, dir: Inode) {
    BytesToBlocks(dir.size) <= 7 && forall i | 0 <= i < BytesToBlocks(dir.size) :: dir.direct[i] < |disk|
  }

  /** The block of the directory that has the first empty slot, from block i on; the number of blocks when none has. */
  function SlotBlock(disk: seq<DiskBlock>, dir: Inode, i: nat): (k: nat)
    requires DirOnDisk(disk, dir) && i <= BytesToBlocks(dir.size)
    ensures i <= k <= BytesToBlocks(dir.size)
    ensures k < BytesToBlocks(dir.size) ==> FreeSlot(disk[dir.direct[k]], 0) < 64
    decreases BytesToBlocks(dir.size) - i
  {
    if i == BytesToBlocks(dir.size) then i
    else if FreeSlot(disk[dir.direct[i]], 0) < 64 then i
    else SlotBlock(disk, dir, i + 1)
  }

  /** Block i of a directory is full. */
  ghost predicate IsFull(disk: seq<DiskBlock>, dir: Inode, i: nat)
    requires DirOnDisk(disk, dir) && i < BytesToBlocks(dir.size)
  {
    forall j: nat | j < 64 :: EntryNumber(disk[dir.direct[i]], j) != 0
  }

  lemma {:induction false} SlotBlockIs(disk: seq<DiskBlock>, dir: Inode, from: nat, i: nat)
    requires DirOnDisk(disk, dir) && from <= i <= BytesToBlocks(dir.size)
    requires forall h: nat | from <= h < i :: IsFull(disk, dir, h)
    requires i < BytesToBlocks(dir.size) ==> !IsFull(disk, dir, i)
    ensures SlotBlock(disk, dir, from) == i
    decreases i - from
  {
    hide BytesToBlocks, EntryNumber;
    if from < i {
      assert IsFull(disk, dir, from);
      SlotBlockIs(disk, dir, from + 1, i);
    }
  }

  /** The entry takes the 64 bytes of the first empty slot, slot j of block i, and the rest of the disk stays as it is;
      so does all of it when no slot is empty. */
  lemma EntryPlaced(disk: seq<DiskBlock>, dir: Inode, i: nat, j: nat, entry: Record)
    requires DirOnDisk(disk, dir) && i <= BytesToBlocks(dir.size) && j < 64
    requires forall h: nat | h < i :: IsFull(disk, dir, h)
    requires i < BytesToBlocks(dir.size) ==>
               && EntryNumber(disk[dir.direct[i]], j) == 0
               && forall k: nat | k < j :: EntryNumber(disk[dir.direct[i]], k) != 0
    ensures WithEntry(disk, dir, entry) ==
              if i == BytesToBlocks(dir.size) then disk
              else var b := dir.direct[i]; disk[b := disk[b][..64 * j] + entry + disk[b][64 * j + 64..]]
  {
    hide BytesToBlocks, EntryNumber;
    SlotBlockIs(disk, dir, 0, i);
    if i < BytesToBlocks(dir.size) {
      assert FreeSlot(disk[dir.direct[i]], 0) == j;
    }
  }

  /** The disk after an entry is put in the first empty slot; unchanged when there is none. */
  function WithEntry(disk: seq<DiskBlock>, dir: Inode, entry: Record): (disk': seq<DiskBlock>)
    requires DirOnDisk(disk, dir)
    ensures |disk'| == |disk|
  {
    var i := SlotBlock(disk, dir, 0);
    if i == BytesToBlocks(dir.size) then disk
    else
      var b := dir.direct[i];
      disk[b := Patch(disk[b], 64 * FreeSlot(disk[b], 0), entry)]
  }

  function NewFile(number: uint32, dataBlock: uint32): Inode {
    Inode(number, FILE_TYPE_FILE, FS_BLOCK, seq(24, _ => 0), [dataBlock, 0, 0, 0, 0, 0, 0], [0, 0, 0])
  }

  /** Directory `parent` gets an entry for inode `number`; 64 bytes are added to its size. */
  datatype Creation = Creation(disk: seq<DiskBlock>, f: uint32, parent: Inode, name: seq<byte>, number: uint32,
                               dataBlock: uint32)
  {
    ghost predicate Possible() {
      && OnDisk(disk, f, number) && OnDisk(disk, f, parent.iNumber) && DirOnDisk(disk, parent)
      && |name| < NAME_LIMIT && CString(name)
      && parent.size + RECORD < 0x1_0000_0000 && BytesToBlocks(parent.size + RECORD) == BytesToBlocks(parent.size)
    }

    function File(): Inode { NewFile(number, dataBlock) }

    function GrownParent(): Inode
      requires parent.size + RECORD < 0x1_0000_0000
    {
      parent.(size := parent.size + RECORD)
    }

    ghost function DiskWithFile(): (d: seq<DiskBlock>)
      requires Possible()
      ensures |d| == |disk|
    {
      WithInodeBlocks(disk, f, File());
      WithInode(disk, f, File())
    }

    ghost function DiskWithEntry(): (d: seq<DiskBlock>)
      requires Possible()
      ensures |d| == |disk|
    {
      WithEntry(DiskWithFile(), parent, EntryRecord(number, name))
    }

    /** The three writes, one after another. */
    ghost function Result(): (d: seq<DiskBlock>)
      requires Possible()
      ensures |d| == |disk|
    {
      WithInodeBlocks(DiskWithEntry(), f, GrownParent());
      WithInode(DiskWithEntry(), f, GrownParent())
    }

    /** The cached copy of a directory after the call. */
    function Cached(dir: Inode): Inode
      requires parent.size + RECORD < 0x1_0000_0000
    {
      if dir.iNumber == parent.iNumber then GrownParent() else dir
    }
  }
}
