/** Sectors, inode records and directory entries as bytes on disk. */
module DiskFormat {
  import opened Bitwise

  const FS_BLOCK: nat := 4096
  const FS_SECTOR: nat := 512
  const SECTORS_PER_BLOCK: nat := 8
  /** sizeof(inode_t) and sizeof(dir_entry_t) */
  const RECORD: nat := 64
  const INODES_PER_SECTOR: nat := FS_SECTOR / RECORD
  const DIR_ENTRIES_PER_BLOCK: nat := FS_BLOCK / RECORD
  const FILE_TYPE_FILE: byte := 0
  const FILE_TYPE_DIR: byte := 1

  type DiskBlock = b: seq<byte> | |b| == 4096 witness seq(4096, _ => 0)
  type Sector = s: seq<byte> | |s| == 512 witness seq(512, _ => 0)
  type Record = r: seq<byte> | |r| == 64 witness seq(64, _ => 0)

  function ZeroBlock(): DiskBlock { seq(4096, _ => 0) }
  function ZeroSector(): Sector { seq(512, _ => 0) }

  datatype InodeFields = Inode(iNumber: uint32, fileType: byte, size: uint32, times: seq<byte>, direct: seq<uint32>,
                               tail: seq<byte>)

  /** inode_t: 24 bytes of times, seven direct pointers and three last bytes. */
  type Inode = n: InodeFields | |n.times| == 24 && |n.direct| == 7 && |n.tail| == 3
    witness Inode(0, 0, 0, seq(24, _ => 0), seq(7, _ => 0), seq(3, _ => 0))

  function ZeroInode(): Inode {
    Inode(0, 0, 0, seq(24, _ => 0), seq(7, _ => 0), seq(3, _ => 0))
  }

  /** Little-endian uint32_t. */
  function U32(b: seq<byte>, o: nat): uint32
    requires o + 4 <= |b|
  {
    var b0: int, b1: int, b2: int, b3: int := b[o], b[o + 1], b[o + 2], b[o + 3];
    b0 + 0x100 * b1 + 0x1_0000 * b2 + 0x100_0000 * b3
  }

  function U32Bytes(v: uint32): (b: seq<byte>)
    ensures |b| == 4 && U32(b, 0) == v
  {
    var v1 := v / 0x100;
    var v2 := v1 / 0x100;
    [v % 0x100, v1 % 0x100, v2 % 0x100, v2 / 0x100]
  }

  function PointerBytes(d: seq<uint32>): (b: seq<byte>)
    ensures |b| == 4 * |d|
    ensures forall k: nat | k < |d| :: U32(b, 4 * k) == d[k]
  {
    if d == [] then []
    else
      var rest := PointerBytes(d[1..]);
      var b := U32Bytes(d[0]) + rest;
      assert forall k: nat | 0 < k < |d| :: U32(b, 4 * k) == U32(rest, 4 * (k - 1)) == d[k];
      b
  }

  function DecodeInode(r: Record): Inode {
    Inode(U32(r, 0), r[4], U32(r, 5), r[9..33], seq(7, k requires 0 <= k < 7 => U32(r, 33 + 4 * k)), r[61..])
  }

  function EncodeInode(n: Inode): (r: Record)
  {
    U32Bytes(n.iNumber) + [n.fileType] + U32Bytes(n.size) + n.times + PointerBytes(n.direct) + n.tail
  }

  lemma U32Within(a: seq<byte>, b: seq<byte>, c: seq<byte>, o: nat)
    requires o + 4 <= |b|
    ensures U32(a + b + c, |a| + o) == U32(b, o)
  {
  }

  /** An inode written to disk and read back is the same inode. */
  lemma InodeRoundTrip(n: Inode)
    ensures DecodeInode(EncodeInode(n)) == n
  {
    var r := EncodeInode(n);
    var a, b, c, d := U32Bytes(n.iNumber), U32Bytes(n.size), PointerBytes(n.direct), n.tail;
    assert U32(r, 0) == n.iNumber by {
      assert r == [] + a + ([n.fileType] + b + n.times + c + d);
      U32Within([], a, [n.fileType] + b + n.times + c + d, 0);
    }
    assert U32(r, 5) == n.size by {
      assert r == (a + [n.fileType]) + b + (n.times + c + d);
      U32Within(a + [n.fileType], b, n.times + c + d, 0);
    }
    forall k: nat | k < 7
      ensures U32(r, 33 + 4 * k) == n.direct[k]
    {
      var front := a + [n.fileType] + b + n.times;
      assert r == front + c + d && |front| == 33;
      U32Within(front, c, d, 4 * k);
    }
    assert DecodeInode(r).direct == n.direct;
  }

  /** The bytes of a word as they are stored, the lowest one first. */
  lemma BytesOfU32(b: seq<byte>, o: nat, v: uint32)
    requires o + 4 <= |b|
    ensures U32(b, o) == v <==>
              && b[o] == v % 0x100 && b[o + 1] == v / 0x100 % 0x100
              && b[o + 2] == v / 0x1_0000 % 0x100 && b[o + 3] == v / 0x100_0000
  {
    var b0: int, b1: int, b2: int, b3: int := b[o], b[o + 1], b[o + 2], b[o + 3];
    ByteByByte(v);
    if U32(b, o) == v {
      DivUnique(v, 0x100, b1 + 0x100 * b2 + 0x1_0000 * b3, b0);
      DivUnique(v / 0x100, 0x100, b2 + 0x100 * b3, b1);
      DivUnique(v / 0x1_0000, 0x100, b3, b2);
    }
  }

  lemma ByteByByte(v: uint32)
    ensures v / 0x100 / 0x100 == v / 0x1_0000 && v / 0x1_0000 / 0x100 == v / 0x100_0000
    ensures v == v % 0x100 + 0x100 * (v / 0x100 % 0x100) + 0x1_0000 * (v / 0x1_0000 % 0x100)
                 + 0x100_0000 * (v / 0x100_0000)
  {
  }

  lemma U32OfBytes(b: seq<byte>, o: nat)
    requires o + 4 <= |b|
    ensures U32Bytes(U32(b, o)) == b[o..o + 4]
  {
    BytesOfU32(b, o, U32(b, o));
  }

  lemma {:induction false} PointersOfBytes(d: seq<uint32>, b: seq<byte>)
    requires |b| == 4 * |d| && forall k: nat | k < |d| :: U32(b, 4 * k) == d[k]
    ensures PointerBytes(d) == b
  {
    if d != [] {
      U32OfBytes(b, 0);
      assert U32(b, 4 * 0) == d[0];
      assert b == b[..4] + b[4..];
      forall k: nat | k < |d| - 1
        ensures U32(b[4..], 4 * k) == d[1..][k]
      {
        assert U32(b, 4 * (k + 1)) == d[k + 1];
      }
      PointersOfBytes(d[1..], b[4..]);
    }
  }

  /** Every record is the encoding of the inode that it decodes to. */
  lemma RecordRoundTrip(r: Record)
    ensures EncodeInode(DecodeInode(r)) == r
  {
    var n := DecodeInode(r);
    U32OfBytes(r, 0);
    U32OfBytes(r, 5);
    forall k: nat | k < 7
      ensures U32(r[33..61], 4 * k) == n.direct[k]
    {
    }
    PointersOfBytes(n.direct, r[33..61]);
    assert r == r[0..4] + [r[4]] + r[5..9] + r[9..33] + r[33..61] + r[61..];
  }

  /** Where the fields of an inode lie in its record, the lowest byte first. */
  lemma InodeBytes(n: Inode)
    ensures var r := EncodeInode(n);
            && r[0] == n.iNumber % 0x100 && r[1] == n.iNumber / 0x100 % 0x100
            && r[2] == n.iNumber / 0x1_0000 % 0x100 && r[3] == n.iNumber / 0x100_0000
            && r[4] == n.fileType
            && r[5] == n.size % 0x100 && r[6] == n.size / 0x100 % 0x100
            && r[7] == n.size / 0x1_0000 % 0x100 && r[8] == n.size / 0x100_0000
            && r[9..33] == n.times && r[61..64] == n.tail
    ensures var r := EncodeInode(n);
            forall k: nat | k < 7 ::
              && r[33 + 4 * k] == n.direct[k] % 0x100 && r[34 + 4 * k] == n.direct[k] / 0x100 % 0x100
              && r[35 + 4 * k] == n.direct[k] / 0x1_0000 % 0x100 && r[36 + 4 * k] == n.direct[k] / 0x100_0000
  {
    hide EncodeInode, U32;
    var r := EncodeInode(n);
    InodeRoundTrip(n);
    assert DecodeInode(r).direct == n.direct;
    BytesOfU32(r, 0, n.iNumber);
    BytesOfU32(r, 5, n.size);
    forall k: nat | k < 7
      ensures U32(r, 33 + 4 * k) == n.direct[k]
    {
      assert DecodeInode(r).direct[k] == n.direct[k];
    }
    forall k: nat | k < 7 {
      BytesOfU32(r, 33 + 4 * k, n.direct[k]);
    }
  }

  /** The inode that stands for "not found" is 64 zero bytes. */
  lemma ZeroInodeBytes()
    ensures EncodeInode(ZeroInode()) == seq(64, _ => 0)
    ensures DecodeInode(seq(64, _ => 0)) == ZeroInode()
  {
    var r: Record := seq(64, _ => 0);
    assert DecodeInode(r) == ZeroInode();
    RecordRoundTrip(r);
  }

  /** The sector of an inode as lookups compute it, from its byte address, in uint32_t arithmetic. */
  function InodeSector(n: uint32, firstInodeBlock: uint32): nat {
    (n * RECORD + firstInodeBlock * FS_BLOCK) % 0x1_0000_0000 / FS_SECTOR
  }

  /** The sector of an inode as updates compute it. */
  function UpdateSector(n: uint32, firstInodeBlock: uint32): nat {
    (firstInodeBlock * SECTORS_PER_BLOCK + n / INODES_PER_SECTOR) % 0x1_0000_0000
  }

  /** The two formulas agree iff the sector lies in the first 4 GB of the disk. */
  lemma SectorFormulasAgree(n: uint32, firstInodeBlock: uint32)
    ensures InodeSector(n, firstInodeBlock) == UpdateSector(n, firstInodeBlock)
       <==> UpdateSector(n, firstInodeBlock) < 0x80_0000
  {
    var s := firstInodeBlock * 8 + n / 8;
    var q, r, t := s / 0x80_0000, s % 0x80_0000, s / 0x1_0000_0000;
    assert n * 64 + firstInodeBlock * 4096 == 0x1_0000_0000 * q + (512 * r + 64 * (n % 8));
    assert InodeSector(n, firstInodeBlock) == r;
    assert s % 0x1_0000_0000 == 0x80_0000 * (q - 512 * t) + r;
  }

  function ReadBlock(disk: seq<DiskBlock>, b: nat): DiskBlock {
    if b < |disk| then disk[b] else ZeroBlock()
  }

  /** Blocks of the largest disk whose sector numbers have the 28 bits that the controller takes. */
  const DEVICE_BLOCKS: nat := 0x200_0000

  /** The block that is read when block b is asked for, by the number of its first sector. */
  function DeviceBlock(b: uint32): (d: nat)
    ensures d < DEVICE_BLOCKS && (b < DEVICE_BLOCKS ==> d == b)
  {
    b * SECTORS_PER_BLOCK % 0x1000_0000 / SECTORS_PER_BLOCK
  }

  /** Reads past the end of the disk give zeros. */
  function ReadSector(disk: seq<DiskBlock>, s: nat): Sector {
    ReadBlock(disk, s / 8)[s % 8 * 512..s % 8 * 512 + 512]
  }

  function WriteSector(disk: seq<DiskBlock>, s: nat, content: Sector): (disk': seq<DiskBlock>)
    requires s / 8 < |disk|
    ensures |disk'| == |disk|
  {
    disk[s / 8 := Patch(disk[s / 8], s % 8 * 512, content)]
  }

  /** b with the bytes from o on replaced. */
  function Patch(b: seq<byte>, o: nat, content: seq<byte>): (r: seq<byte>)
    requires o + |content| <= |b|
    ensures |r| == |b|
  {
    b[..o] + content + b[o + |content|..]
  }

  function RecordIn(b: seq<byte>, k: nat): Record
    requires 64 * k + 64 <= |b|
  {
    b[64 * k..64 * k + 64]
  }

  /** The inode numbered n as lookups read it. */
  function InodeAt(disk: seq<DiskBlock>, firstInodeBlock: uint32, n: uint32): Inode {
    DecodeInode(RecordIn(ReadSector(disk, InodeSector(n, firstInodeBlock)), n % INODES_PER_SECTOR))
  }

  /** The disk after an inode record is written, as updates do it. */
  function WithInode(disk: seq<DiskBlock>, firstInodeBlock: uint32, n: Inode): (disk': seq<DiskBlock>)
    requires UpdateSector(n.iNumber, firstInodeBlock) / 8 < |disk|
    ensures |disk'| == |disk|
  {
    var s := UpdateSector(n.iNumber, firstInodeBlock);
    WriteSector(disk, s, Patch(ReadSector(disk, s), 64 * (n.iNumber % INODES_PER_SECTOR), EncodeInode(n)))
  }

  /** Whether inode n lies on the disk, below 4 GB. */
  predicate OnDisk(disk: seq<DiskBlock>, firstInodeBlock: uint32, n: uint32) {
    firstInodeBlock + n / 64 < |disk| && |disk| <= 0x10_0000
  }

  lemma PatchedRecord(b: seq<byte>, k: nat, content: Record, j: nat)
    requires 64 * k + 64 <= |b| && 64 * j + 64 <= |b|
    ensures RecordIn(Patch(b, 64 * k, content), j) == if j == k then content else RecordIn(b, j)
  {
    if j < k {
      assert 64 * j + 64 <= 64 * k;
    } else if j > k {
      assert 64 * k + 64 <= 64 * j;
    }
  }

  /** Where inode n lies: the k-th record of its sector is the record n % 64 of its block. */
  lemma InodePlace(f: nat, n: nat)
    ensures var s := f * 8 + n / 8; s / 8 == f + n / 64 && s % 8 * 512 + 64 * (n % 8) == 64 * (n % 64)
  {
    assert n / 8 == 8 * (n / 64) + n / 8 % 8;
    assert n % 64 == n / 8 % 8 * 8 + n % 8;
  }

  /** Inode records seen as the records of whole blocks. */
  lemma InodeRecord(disk: seq<DiskBlock>, firstInodeBlock: uint32, n: uint32)
    requires OnDisk(disk, firstInodeBlock, n)
    ensures InodeSector(n, firstInodeBlock) == UpdateSector(n, firstInodeBlock) == firstInodeBlock * 8 + n / 8
    ensures InodeAt(disk, firstInodeBlock, n) == DecodeInode(RecordIn(disk[firstInodeBlock + n / 64], n % 64))
  {
    hide DecodeInode;
    SectorFormulasAgree(n, firstInodeBlock);
    InodePlace(firstInodeBlock, n);
    var s := firstInodeBlock * 8 + n / 8;
    assert s < 0x80_0000 && UpdateSector(n, firstInodeBlock) == s;
    SliceOfSlice(disk[firstInodeBlock + n / 64], s % 8 * 512, 512, 64 * (n % 8), 64);
  }

  lemma SliceOfSlice(b: seq<byte>, o: nat, m: nat, p: nat, q: nat)
    requires o + m <= |b| && p + q <= m
    ensures b[o..o + m][p..p + q] == b[o + p..o + p + q]
  {
    var x, y := b[o..o + m][p..p + q], b[o + p..o + p + q];
    assert forall i | 0 <= i < q :: x[i] == y[i];
  }

  lemma PatchInSlice(b: seq<byte>, o: nat, m: nat, p: nat, content: seq<byte>)
    requires o + m <= |b| && p + |content| <= m
    ensures Patch(b, o, Patch(b[o..o + m], p, content)) == Patch(b, o + p, content)
  {
  }

  lemma WithInodeBlocks(disk: seq<DiskBlock>, firstInodeBlock: uint32, n: Inode)
    requires OnDisk(disk, firstInodeBlock, n.iNumber)
    ensures UpdateSector(n.iNumber, firstInodeBlock) / 8 == firstInodeBlock + n.iNumber / 64
    ensures var b := firstInodeBlock + n.iNumber / 64;
            WithInode(disk, firstInodeBlock, n) == disk[b := Patch(disk[b], 64 * (n.iNumber % 64), EncodeInode(n))]
  {
    hide DecodeInode, EncodeInode, Patch, RecordIn;
    InodeRecord(disk, firstInodeBlock, n.iNumber);
    InodePlace(firstInodeBlock, n.iNumber);
    var s, i := firstInodeBlock * 8 + n.iNumber / 8, n.iNumber;
    PatchInSlice(disk[s / 8], s % 8 * 512, 512, 64 * (i % 8), EncodeInode(n));
  }

  /** After an update the inode reads back exactly, every other inode is unchanged, and so is every other block. */
  lemma ReadOverWrite(disk: seq<DiskBlock>, firstInodeBlock: uint32, n: Inode, m: uint32)
    requires OnDisk(disk, firstInodeBlock, n.iNumber) && OnDisk(disk, firstInodeBlock, m)
    requires UpdateSector(n.iNumber, firstInodeBlock) / 8 < |disk|
    ensures InodeAt(WithInode(disk, firstInodeBlock, n), firstInodeBlock, m)
         == if m == n.iNumber then n else InodeAt(disk, firstInodeBlock, m)
  {
    hide DecodeInode, EncodeInode, InodeAt, WithInode, Patch, RecordIn;
    var disk' := WithInode(disk, firstInodeBlock, n);
    WithInodeBlocks(disk, firstInodeBlock, n);
    InodeRecord(disk, firstInodeBlock, m);
    InodeRecord(disk', firstInodeBlock, m);
    InodeRoundTrip(n);
    var b := firstInodeBlock + n.iNumber / 64;
    PatchedRecord(disk[b], n.iNumber % 64, EncodeInode(n), m % 64);
    assert m / 64 == n.iNumber / 64 && m % 64 == n.iNumber % 64 ==> m == n.iNumber;
  }
}
