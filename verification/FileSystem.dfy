/** The file-system calls over a disk of blocks, with their shared buffers and cached directories. */
module FileSystem {
  import opened Bitwise
  import opened DiskFormat
  import opened Paths
  import opened FileCreation

  class Volume {
    const disk: array<DiskBlock>
    const firstInodeBlock: uint32
    var blockBuffer: DiskBlock
    var sectorBuffer: Sector
    var rootInode: Inode
    var currentDirInode: Inode

    constructor (blocks: nat, firstInodeBlock: uint32, root: Inode)
      ensures disk.Length == blocks && this.firstInodeBlock == firstInodeBlock && fresh(disk)
      ensures rootInode == currentDirInode == root
    {
      disk := new DiskBlock[blocks];
      this.firstInodeBlock := firstInodeBlock;
      blockBuffer, sectorBuffer := ZeroBlock(), ZeroSector();
      rootInode, currentDirInode := root, root;
    }

    /** `rw_sectors` with READ, for a whole block. */
    method LoadBlock(b: uint32)
      modifies this`blockBuffer
      ensures blockBuffer == ReadBlock(disk[..], DeviceBlock(b))
    {
      var d := DeviceBlock(b);
      blockBuffer := if d < disk.Length then disk[d] else ZeroBlock();
    }

    /** `rw_sectors` with READ, for one sector. */
    method LoadSector(s: nat)
      modifies this`sectorBuffer
      ensures sectorBuffer == ReadSector(disk[..], s)
    {
      var b := if s / 8 < disk.Length then disk[s / 8] else ZeroBlock();
      sectorBuffer := b[s % 8 * 512..s % 8 * 512 + 512];
    }

    /** The comparison of `strcmp`, between the name at an offset of the block buffer and a string. */
    method CompareName(j: nat, file: seq<byte>) returns (difference: int)
      requires j < 64 && CString(file)
      ensures difference == 0 <==> NameIs(blockBuffer, j, file)
    {
      var i := 0;
      while NameChar(blockBuffer, j, i) != 0 && NameChar(blockBuffer, j, i) == CharAt(file, i)
        invariant 0 <= i <= |file|
        invariant forall k | 0 <= k < i :: NameChar(blockBuffer, j, k) == file[k]
        decreases |file| - i
      {
        i := i + 1;
      }
      difference := NameChar(blockBuffer, j, i) - CharAt(file, i);
      if i < |file| {
        assert file[i] in file;
      }
    }

    /** The inode that `file` names in a directory, or the zero inode. */
    method GetInodeInDir(currentDir: Inode, file: seq<byte>) returns (n: Inode)
      requires CString(file)
      modifies this`blockBuffer, this`sectorBuffer
      ensures n == Lookup(disk[..], firstInodeBlock, currentDir, file, 0)
    {
      hide InodeAt, NameIs;
      var directBlocksToRead := BytesToBlocks(currentDir.size);
      for i := 0 to directBlocksToRead
        invariant Lookup(disk[..], firstInodeBlock, currentDir, file, 0)
               == Lookup(disk[..], firstInodeBlock, currentDir, file, i)
      {
        if i < 7 {
          LoadBlock(currentDir.direct[i]);
        } else {
          blockBuffer := ZeroBlock();
        }
        for j := 0 to DIR_ENTRIES_PER_BLOCK
          invariant blockBuffer == FileBlock(disk[..], currentDir, i)
          invariant FindEntry(blockBuffer, file, 0) == FindEntry(blockBuffer, file, j)
        {
          if EntryNumber(blockBuffer, j) == 0 {
            continue;
          }
          var difference := CompareName(j, file);
          if difference == 0 {
            var number := EntryNumber(blockBuffer, j);
            LoadSector(InodeSector(number, firstInodeBlock));
            n := DecodeInode(RecordIn(sectorBuffer, number % INODES_PER_SECTOR));
            InodeAtIs(disk[..], firstInodeBlock, number);
            return;
          }
        }
      }
      return ZeroInode();
    }

    /** Walks the path character by character, collecting one component at a time in a 60-byte buffer. */
    method GetInode(path: seq<byte>) returns (n: Inode)
      requires CString(path)
      modifies this`blockBuffer, this`sectorBuffer
      ensures n == Resolve(disk[..], firstInodeBlock, rootInode, currentDirInode, path, true)
    {
      hide Lookup, Walk;
      ghost var mem := disk[..];
      var strBuffer := new byte[60](_ => 0);
      var index, currentInode := 0, currentDirInode;
      if CharAt(path, 0) == SLASH {
        index, currentInode := 1, rootInode;
      }
      ghost var start, whole := currentInode, Split(path[index..]);
      var strIndex := 0;
      assert strBuffer[..0] == [];
      NoPrefix(path[index..]);
      while index < |path|
        invariant 0 <= index <= |path| && 0 <= strIndex < 60 && disk[..] == mem
        invariant CString(strBuffer[..strIndex])
        invariant var comps := WithPrefix(strBuffer[..strIndex], Split(path[index..]));
                  Walk(mem, firstInodeBlock, start, whole, true)
                  == Walk(mem, firstInodeBlock, currentInode, comps, true)
      {
        SplitStep(strBuffer[..strIndex], path[index..]);
        assert path[index..][1..] == path[index + 1..];
        if path[index] == SLASH {
          ghost var rest, dir := Split(path[index + 1..]), currentInode;
          currentInode := GetInodeInDir(currentInode, strBuffer[..strIndex]);
          WalkStep(mem, firstInodeBlock, dir, strBuffer[..strIndex], rest);
          if currentInode.iNumber == 0 {
            return ZeroInode();
          }
          strIndex := 0;
          assert strBuffer[..0] == [];
          NoPrefix(path[index + 1..]);
        } else if strIndex < strBuffer.Length - 1 {
          assert path[index] in path;
          strBuffer[strIndex] := path[index];
          assert strBuffer[..strIndex + 1] == strBuffer[..strIndex] + [path[index]];
          strIndex := strIndex + 1;
        } else {
          TooLongComponent(mem, firstInodeBlock, currentInode, strBuffer[..strIndex] + [path[index]],
                           Split(path[index + 1..]));
          return ZeroInode();
        }
        index := index + 1;
      }
      LastComponent(mem, firstInodeBlock, currentInode, strBuffer[..strIndex], path[index..]);
      currentInode := GetInodeInDir(currentInode, strBuffer[..strIndex]);
      if currentInode.iNumber == 0 {
        return ZeroInode();
      }
      return currentInode;
    }

    /** `strrchr` for a slash: where the last one is, or -1. */
    method LastSlashIn(path: seq<byte>) returns (p: int)
      ensures p == LastSlash(path)
    {
      p := -1;
      for i := 0 to |path|
        invariant p == LastSlash(path[..i])
      {
        assert path[..i + 1][..i] == path[..i];
        if path[i] == SLASH {
          p := i;
        }
      }
      assert path[..|path|] == path;
    }

    /** The directory part of a path, resolved. */
    method GetParentInode(path: seq<byte>) returns (n: Inode)
      requires CString(path)
      modifies this`blockBuffer, this`sectorBuffer
      ensures n == Parent(disk[..], firstInodeBlock, rootInode, currentDirInode, path)
    {
      hide LastSlash, Resolve;
      var index := LastSlashIn(path);
      if index == -1 {
        return currentDirInode;
      }
      var temp := path[..index];
      if |temp| == 0 {
        return rootInode;
      }
      n := GetInode(temp);
    }

    /** The part of a path behind the last slash. */
    method GetNamePath(path: seq<byte>) returns (name: seq<byte>)
      ensures name == NamePart(path)
    {
      var temp2 := 0;
      for temp := 0 to |path|
        invariant temp2 == LastSlash(path[..temp]) + 1
      {
        assert path[..temp + 1][..temp] == path[..temp];
        if path[temp] == SLASH {
          temp2 := temp + 1;
        }
      }
      assert path[..|path|] == path;
      name := path[temp2..];
    }

    /** Writes one inode record through the sector buffer. */
    method UpdateInode(inode: Inode)
      requires UpdateSector(inode.iNumber, firstInodeBlock) / 8 < disk.Length
      modifies this`sectorBuffer, disk
      ensures disk[..] == WithInode(old(disk[..]), firstInodeBlock, inode)
    {
      hide EncodeInode, Patch;
      var s := UpdateSector(inode.iNumber, firstInodeBlock);
      LoadSector(s);
      sectorBuffer := Patch(sectorBuffer, 64 * (inode.iNumber % INODES_PER_SECTOR), EncodeInode(inode));
      disk[s / 8] := Patch(disk[s / 8], s % 8 * 512, sectorBuffer);
    }

    /** Puts an entry in the first empty slot of a block, if it has one. */
    method InsertInBlock(directBlock: uint32, entry: Record) returns (done: bool)
      requires directBlock < disk.Length <= DEVICE_BLOCKS
      modifies this`blockBuffer, disk
      ensures var b := old(disk[directBlock]); var j := FreeSlot(b, 0);
              && (done <==> j < 64)
              && disk[..] == if done then old(disk[..])[directBlock := Patch(b, 64 * j, entry)] else old(disk[..])
    {
      hide Patch, EntryNumber, DeviceBlock;
      LoadBlock(directBlock);
      for j := 0 to DIR_ENTRIES_PER_BLOCK
        invariant disk[..] == old(disk[..]) && blockBuffer == disk[directBlock]
        invariant FreeSlot(blockBuffer, 0) == FreeSlot(blockBuffer, j)
      {
        if EntryNumber(blockBuffer, j) == 0 {
          blockBuffer := Patch(blockBuffer, 64 * j, entry);
          disk[directBlock] := blockBuffer;
          return true;
        }
      }
      return false;
    }

    /** Puts an entry in the first empty slot of a directory. */
    method InsertEntry(dir: Inode, blocks: nat, entry: Record)
      requires DirOnDisk(disk[..], dir) && blocks == BytesToBlocks(dir.size) && disk.Length <= DEVICE_BLOCKS
      modifies this`blockBuffer, disk
      ensures disk[..] == WithEntry(old(disk[..]), dir, entry)
    {
      hide BytesToBlocks, Patch, FreeSlot;
      ghost var mem := disk[..];
      for i := 0 to blocks
        invariant disk[..] == mem && SlotBlock(mem, dir, 0) == SlotBlock(mem, dir, i)
      {
        var done := InsertInBlock(dir.direct[i], entry);
        if done {
          return;
        }
      }
    }

    /** Makes a file with the given inode number and data block, in a directory that need not grow. */
    method CreateFile(path: seq<byte>, number: uint32, dataBlock: uint32) returns (newInode: Inode)
      requires CString(path)
      requires Creation(disk[..], firstInodeBlock, Parent(disk[..], firstInodeBlock, rootInode, currentDirInode, path),
                        NamePart(path), number, dataBlock).Possible()
      modifies this, disk
      ensures var c := Creation(old(disk[..]), firstInodeBlock,
                                Parent(old(disk[..]), firstInodeBlock, old(rootInode), old(currentDirInode), path),
                                NamePart(path), number, dataBlock);
              && newInode == c.File() && disk[..] == c.Result()
              && InodeAt(disk[..], firstInodeBlock, c.parent.iNumber) == c.parent.(size := c.parent.size + 64)
              && rootInode == c.Cached(old(rootInode)) && currentDirInode == c.Cached(old(currentDirInode))
      ensures newInode == Inode(number, 0, 4096, seq(24, _ => 0), [dataBlock, 0, 0, 0, 0, 0, 0], [0, 0, 0])
    {
      hide Parent, WithEntry, WithInode, InodeAt, Patch, NamePart, EntryRecord, BytesToBlocks, EncodeInode;
      hide UpdateSector;
      var parentInode := GetParentInode(path);
      ghost var c := Creation(disk[..], firstInodeBlock, parentInode, NamePart(path), number, dataBlock);
      newInode := NewFile(number, dataBlock);
      WithInodeBlocks(disk[..], firstInodeBlock, newInode);
      UpdateInode(newInode);
      var name := GetNamePath(path);
      var newEntry := EntryRecord(newInode.iNumber, name);
      var newBlocks := BytesToBlocks(parentInode.size + RECORD);
      InsertEntry(parentInode, newBlocks, newEntry);
      parentInode := parentInode.(size := parentInode.size + RECORD);
      WithInodeBlocks(disk[..], firstInodeBlock, parentInode);
      ReadOverWrite(disk[..], firstInodeBlock, parentInode, parentInode.iNumber);
      UpdateInode(parentInode);
      if currentDirInode.iNumber == parentInode.iNumber {
        currentDirInode := parentInode;
      }
      if rootInode.iNumber == parentInode.iNumber {
        rootInode := parentInode;
      }
    }
  }

  lemma InodeAtIs(disk: seq<DiskBlock>, f: uint32, n: uint32)
    ensures InodeAt(disk, f, n) == DecodeInode(RecordIn(ReadSector(disk, InodeSector(n, f)), n % INODES_PER_SECTOR))
  {
  }

  /** The components of the part read so far followed by the rest of the path. */
  function WithPrefix(prefix: seq<byte>, comps: seq<seq<byte>>): (r: seq<seq<byte>>)
    requires |comps| > 0
    ensures |r| == |comps|
  {
    [prefix + comps[0]] + comps[1..]
  }

  lemma NoPrefix(path: seq<byte>)
    ensures WithPrefix([], Split(path)) == Split(path)
  {
    var c := Split(path);
    assert [] + c[0] == c[0] && [c[0]] + c[1..] == c;
  }

  /** Reading one more character of the path. */
  lemma SplitStep(prefix: seq<byte>, path: seq<byte>)
    requires path != []
    ensures path[0] == SLASH ==> WithPrefix(prefix, Split(path)) == [prefix] + Split(path[1..])
    ensures path[0] != SLASH ==> WithPrefix(prefix, Split(path)) == WithPrefix(prefix + [path[0]], Split(path[1..]))
  {
    var rest := Split(path[1..]);
    if path[0] == SLASH {
      assert prefix + [] == prefix;
    } else {
      assert prefix + ([path[0]] + rest[0]) == prefix + [path[0]] + rest[0];
    }
  }

  lemma WalkStep(disk: seq<DiskBlock>, f: uint32, dir: Inode, name: seq<byte>, rest: seq<seq<byte>>)
    requires |name| < NAME_LIMIT && |rest| > 0
    ensures var n := Lookup(disk, f, dir, name, 0);
            var m := Walk(disk, f, dir, [name] + rest, true);
            m == if n.iNumber == 0 then ZeroInode() else Walk(disk, f, n, rest, true)
  {
    assert ([name] + rest)[1..] == rest;
  }

  lemma TooLongComponent(disk: seq<DiskBlock>, f: uint32, dir: Inode, prefix: seq<byte>, comps: seq<seq<byte>>)
    requires |comps| > 0 && |prefix| >= NAME_LIMIT
    ensures Walk(disk, f, dir, WithPrefix(prefix, comps), true) == ZeroInode()
  {
  }

  lemma LastComponent(disk: seq<DiskBlock>, f: uint32, dir: Inode, name: seq<byte>, rest: seq<byte>)
    requires rest == [] && |name| < NAME_LIMIT
    ensures var n := Lookup(disk, f, dir, name, 0);
            Walk(disk, f, dir, WithPrefix(name, Split(rest)), true) == if n.iNumber == 0 then ZeroInode() else n
  {
    assert WithPrefix(name, Split(rest)) == [name] by {
      assert name + [] == name;
    }
  }
}
