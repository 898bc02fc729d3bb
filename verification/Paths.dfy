/** Looking names up in directories and resolving paths, as functions of the disk. */
module Paths {
  import opened Bitwise
  import opened DiskFormat

  const SLASH: byte := 47
  const NAME_LIMIT: nat := 60

  /** Whole blocks that hold so many bytes, rounding up to sectors first and to blocks then. */
  function BytesToBlocks(bytes: uint32): (n: nat)
    ensures n * FS_BLOCK >= bytes && (n > 0 ==> (n - 1) * FS_BLOCK < bytes)
  {
    var sectors := bytes / FS_SECTOR + (if bytes % FS_SECTOR > 0 then 1 else 0);
    sectors / SECTORS_PER_BLOCK + (if sectors % SECTORS_PER_BLOCK > 0 then 1 else 0)
  }

  /** A C string: no zero byte. The terminator is not part of it. */
  predicate CString(s: seq<byte>) {
    0 !in s
  }

  function CharAt(s: seq<byte>, i: nat): byte {
    if i < |s| then s[i] else 0
  }

  /** Character k of the name of entry j, read as `strcmp` reads it. */
  function NameChar(block: DiskBlock, j: nat, k: nat): byte {
    CharAt(block, 64 * j + 4 + k)
  }

  /** `strcmp` of the name of entry j with the string file is 0. Past the block the buffer is zero. */
  predicate NameIs(block: DiskBlock, j: nat, file: seq<byte>) {
    && (forall k | 0 <= k < |file| :: NameChar(block, j, k) == file[k])
    && NameChar(block, j, |file|) == 0
  }

  function EntryNumber(block: DiskBlock, j: nat): uint32
    requires j < 64
  {
    U32(block, 64 * j)
  }

  predicate EntryMatches(block: DiskBlock, j: nat, file: seq<byte>)
    requires j < 64
  {
    EntryNumber(block, j) != 0 && NameIs(block, j, file)
  }

  /** The first entry from j on with this name, or 64. */
  function FindEntry(block: DiskBlock, file: seq<byte>, j: nat): (k: nat)
    requires j <= 64
    ensures j <= k <= 64
    ensures k < 64 ==> EntryMatches(block, k, file)
    ensures forall i | j <= i < k :: !EntryMatches(block, i, file)
    decreases 64 - j
  {
    if j == 64 then 64
    else if EntryMatches(block, j, file) then j
    else FindEntry(block, file, j + 1)
  }

  /** Block i of a file. There are seven pointers; no data is modelled behind an eighth. */
  function FileBlock(disk: seq<DiskBlock>, n: Inode, i: nat): DiskBlock {
    if i < 7 then ReadBlock(disk, DeviceBlock(n.direct[i])) else ZeroBlock()
  }

  /** The inode of the first entry with this name, from block i of the directory on; zero when there is none. */
  function Lookup(disk: seq<DiskBlock>, firstInodeBlock: uint32, dir: Inode, file: seq<byte>, i: nat): Inode
    decreases BytesToBlocks(dir.size) - i
  {
    if i >= BytesToBlocks(dir.size) then ZeroInode()
    else
      var block := FileBlock(disk, dir, i);
      var j := FindEntry(block, file, 0);
      if j < 64 then InodeAt(disk, firstInodeBlock, EntryNumber(block, j))
      else Lookup(disk, firstInodeBlock, dir, file, i + 1)
  }

  /** Where an entry lies in its block: four bytes of number, the lowest one first, and the name behind them. */
  lemma EntryAt(block: DiskBlock, j: nat, number: uint32, file: seq<byte>)
    requires j < 64 && |file| < NAME_LIMIT
    ensures EntryNumber(block, j) == number <==>
              && block[64 * j] == number % 0x100 && block[64 * j + 1] == number / 0x100 % 0x100
              && block[64 * j + 2] == number / 0x1_0000 % 0x100 && block[64 * j + 3] == number / 0x100_0000
    ensures NameIs(block, j, file) <==> block[64 * j + 4..64 * j + 5 + |file|] == file + [0]
  {
    hide U32;
    BytesOfU32(block, 64 * j, number);
    var name := block[64 * j + 4..64 * j + 5 + |file|];
    assert forall k | 0 <= k <= |file| :: name[k] == NameChar(block, j, k);
    assert name == file + [0] ==> forall k | 0 <= k < |file| :: name[k] == file[k];
    assert name == file + [0] ==> name[|file|] == 0;
  }

  /** The lookup is decided by the first entry of the name, in block i and slot j. */
  lemma {:induction false} LookupIsFirst(disk: seq<DiskBlock>, f: uint32, dir: Inode, file: seq<byte>, from: nat,
                                         i: nat, j: nat)
    requires from <= i < BytesToBlocks(dir.size) && j < 64 && EntryMatches(FileBlock(disk, dir, i), j, file)
    requires forall h: nat, k: nat | from <= h <= i && k < 64 && (h < i || k < j) ::
               !EntryMatches(FileBlock(disk, dir, h), k, file)
    ensures Lookup(disk, f, dir, file, from) == InodeAt(disk, f, EntryNumber(FileBlock(disk, dir, i), j))
    decreases i - from
  {
    hide BytesToBlocks, FileBlock, EntryMatches, EntryNumber, InodeAt;
    var k := FindEntry(FileBlock(disk, dir, from), file, 0);
    if from < i {
      assert k == 64;
      LookupIsFirst(disk, f, dir, file, from + 1, i, j);
    } else {
      assert k == j;
    }
  }

  /** Without one it finds nothing. */
  lemma {:induction false} LookupOfNone(disk: seq<DiskBlock>, f: uint32, dir: Inode, file: seq<byte>, from: nat)
    requires forall h: nat, k: nat | from <= h < BytesToBlocks(dir.size) && k < 64 ::
               !EntryMatches(FileBlock(disk, dir, h), k, file)
    ensures Lookup(disk, f, dir, file, from) == ZeroInode()
    decreases BytesToBlocks(dir.size) - from
  {
    hide BytesToBlocks, FileBlock, EntryMatches;
    if from < BytesToBlocks(dir.size) {
      var k := FindEntry(FileBlock(disk, dir, from), file, 0);
      assert k == 64;
      LookupOfNone(disk, f, dir, file, from + 1);
    }
  }

  /** The components between slashes, empty ones included. */
  function Split(path: seq<byte>): (c: seq<seq<byte>>)
    ensures |c| > 0
  {
    if path == [] then [[]]
    else
      var rest := Split(path[1..]);
      if path[0] == SLASH then [[]] + rest else [[path[0]] + rest[0]] + rest[1..]
  }

  /** Resolving components one after another. Without a cut-off every component is looked up;
      with it, one of 60 characters or more resolves to nothing. */
  function Walk(disk: seq<DiskBlock>, firstInodeBlock: uint32, dir: Inode, comps: seq<seq<byte>>, cutOff: bool): Inode
    requires |comps| > 0
    decreases |comps|
  {
    var n :=
      if cutOff && |comps[0]| >= NAME_LIMIT then ZeroInode() else Lookup(disk, firstInodeBlock, dir, comps[0], 0);
    if n.iNumber == 0 then ZeroInode()
    else if |comps| == 1 then n
    else Walk(disk, firstInodeBlock, n, comps[1..], cutOff)
  }

  /** A path from the root if it starts with a slash, else from the current directory. */
  function Resolve(disk: seq<DiskBlock>, firstInodeBlock: uint32, root: Inode, cwd: Inode, path: seq<byte>,
                   cutOff: bool): Inode
  {
    if path != [] && path[0] == SLASH then Walk(disk, firstInodeBlock, root, Split(path[1..]), cutOff)
    else Walk(disk, firstInodeBlock, cwd, Split(path), cutOff)
  }

  /** Where the last slash is, or -1. */
  function LastSlash(path: seq<byte>): (i: int)
    ensures -1 <= i < |path|
    ensures i >= 0 ==> path[i] == SLASH
    ensures forall k | i < k < |path| :: path[k] != SLASH
  {
    if path == [] then -1
    else if path[|path| - 1] == SLASH then |path| - 1
    else LastSlash(path[..|path| - 1])
  }

  function NamePart(path: seq<byte>): seq<byte> {
    path[LastSlash(path) + 1..]
  }

  function Parent(disk: seq<DiskBlock>, firstInodeBlock: uint32, root: Inode, cwd: Inode, path: seq<byte>): Inode {
    var i := LastSlash(path);
    if i < 0 then cwd
    else if i == 0 then root
    else Resolve(disk, firstInodeBlock, root, cwd, path[..i], true)
  }

  /** Stored names end inside their 60-byte field. */
  ghost predicate NamesFit(block: DiskBlock) {
    forall j: nat | j < 64 && EntryNumber(block, j) != 0 :: 0 in block[64 * j + 4..64 * j + 64]
  }

  ghost predicate DirNamesFit(disk: seq<DiskBlock>, dir: Inode) {
    forall i: nat | i < BytesToBlocks(dir.size) :: NamesFit(FileBlock(disk, dir, i))
  }

  lemma NameHasNoZero(block: DiskBlock, j: nat, file: seq<byte>, k: nat)
    requires NameIs(block, j, file) && CString(file) && k < |file|
    ensures NameChar(block, j, k) != 0
  {
    assert file[k] in file;
  }

  /** A name of 60 characters or more matches no entry whose name fits its field. */
  lemma LongNameAbsent(block: DiskBlock, file: seq<byte>, j: nat)
    requires NamesFit(block) && CString(file) && |file| >= NAME_LIMIT && j < 64
    ensures !EntryMatches(block, j, file)
  {
    if EntryMatches(block, j, file) {
      var k :| 0 <= k < NAME_LIMIT && block[64 * j + 4..64 * j + 64][k] == 0;
      NameHasNoZero(block, j, file, k);
    }
  }

  lemma {:induction false} LongLookup(disk: seq<DiskBlock>, f: uint32, dir: Inode, file: seq<byte>, i: nat)
    requires DirNamesFit(disk, dir) && CString(file) && |file| >= NAME_LIMIT
    ensures Lookup(disk, f, dir, file, i) == ZeroInode()
    decreases BytesToBlocks(dir.size) - i
  {
    hide BytesToBlocks;
    if i < BytesToBlocks(dir.size) {
      var block := FileBlock(disk, dir, i);
      if FindEntry(block, file, 0) < 64 {
        LongNameAbsent(block, file, FindEntry(block, file, 0));
      }
      LongLookup(disk, f, dir, file, i + 1);
    }
  }

  /** Every directory that the walk looks into has names that fit. */
  ghost predicate WalkNamesFit(disk: seq<DiskBlock>, f: uint32, dir: Inode, comps: seq<seq<byte>>)
    requires |comps| > 0
    decreases |comps|
  {
    && DirNamesFit(disk, dir)
    && (|comps| == 1 || WalkNamesFit(disk, f, Lookup(disk, f, dir, comps[0], 0), comps[1..]))
  }

  /** The cut-off at 59 characters never changes the answer where stored names fit their fields. */
  lemma {:induction false} CutOffHarmless(disk: seq<DiskBlock>, f: uint32, dir: Inode, comps: seq<seq<byte>>)
    requires |comps| > 0 && WalkNamesFit(disk, f, dir, comps) && forall c | c in comps :: CString(c)
    ensures Walk(disk, f, dir, comps, true) == Walk(disk, f, dir, comps, false)
    decreases |comps|
  {
    hide Lookup;
    assert comps[0] in comps;
    if |comps[0]| >= NAME_LIMIT {
      LongLookup(disk, f, dir, comps[0], 0);
    } else if |comps| > 1 {
      assert forall c | c in comps[1..] :: c in comps;
      CutOffHarmless(disk, f, Lookup(disk, f, dir, comps[0], 0), comps[1..]);
    }
  }

  /** A path with a component of 60 characters or more leads nowhere; without one the cut-off plays no part. */
  lemma {:induction false} CutOffAt60(disk: seq<DiskBlock>, f: uint32, dir: Inode, comps: seq<seq<byte>>)
    requires |comps| > 0
    ensures Walk(disk, f, dir, comps, true) ==
              if exists c :: c in comps && |c| >= 60 then ZeroInode() else Walk(disk, f, dir, comps, false)
    decreases |comps|
  {
    hide Lookup;
    assert comps[0] in comps;
    if |comps| == 1 {
      assert forall c | c in comps :: c == comps[0];
    } else {
      assert forall c :: c in comps <==> c == comps[0] || c in comps[1..];
      CutOffAt60(disk, f, Lookup(disk, f, dir, comps[0], 0), comps[1..]);
    }
  }

  lemma SplitFirst(c: byte, path: seq<byte>)
    ensures var rest := Split(path);
            Split([c] + path) == if c == SLASH then [[]] + rest else [[c] + rest[0]] + rest[1..]
  {
    assert ([c] + path)[1..] == path;
  }

  lemma FirstOfJoined(c: byte, x: seq<seq<byte>>, y: seq<seq<byte>>)
    requires x != []
    ensures [[c] + (x + y)[0]] + (x + y)[1..] == [[c] + x[0]] + x[1..] + y
    ensures [[]] + (x + y) == [[]] + x + y
  {
    assert (x + y)[1..] == x[1..] + y;
  }

  lemma {:induction false} SplitAtSlash(a: seq<byte>, b: seq<byte>)
    ensures Split(a + [SLASH] + b) == Split(a) + Split(b)
  {
    if a == [] {
      SplitFirst(SLASH, b);
      assert a + [SLASH] + b == [SLASH] + b;
    } else {
      hide Split;
      var rest := a[1..] + [SLASH] + b;
      SplitAtSlash(a[1..], b);
      SplitFirst(a[0], rest);
      SplitFirst(a[0], a[1..]);
      FirstOfJoined(a[0], Split(a[1..]), Split(b));
      assert a + [SLASH] + b == [a[0]] + rest && a == [a[0]] + a[1..];
    }
  }

  lemma {:induction false} SplitNoSlash(a: seq<byte>)
    requires SLASH !in a
    ensures Split(a) == [a]
  {
    if a != [] {
      SplitNoSlash(a[1..]);
      assert [a[0]] + a[1..] == a;
    }
  }

  /** Walking more components goes on from where the walk had arrived. */
  lemma {:induction false} WalkOn(disk: seq<DiskBlock>, f: uint32, dir: Inode, comps: seq<seq<byte>>,
                                  more: seq<seq<byte>>)
    requires |comps| > 0 && |more| > 0
    ensures var n := Walk(disk, f, dir, comps, true);
            var m := Walk(disk, f, dir, comps + more, true);
            m == if n.iNumber == 0 then ZeroInode() else Walk(disk, f, n, more, true)
    decreases |comps|
  {
    hide Lookup;
    var all := comps + more;
    if |comps| == 1 {
      assert all[1..] == more;
    } else {
      assert all[1..] == comps[1..] + more;
      var n := if |comps[0]| >= NAME_LIMIT then ZeroInode() else Lookup(disk, f, dir, comps[0], 0);
      if n.iNumber != 0 {
        WalkOn(disk, f, n, comps[1..], more);
      }
    }
  }

  /** Walking components a and then name, from start. */
  lemma WalkSplits(disk: seq<DiskBlock>, f: uint32, start: Inode, a: seq<byte>, name: seq<byte>)
    requires SLASH !in name
    ensures Walk(disk, f, start, Split(a + [SLASH] + name), true)
         == Walk(disk, f, Walk(disk, f, start, Split(a), true), [name], true)
  {
    hide Lookup, Walk, Split;
    SplitAtSlash(a, name);
    SplitNoSlash(name);
    WalkOn(disk, f, start, Split(a), [name]);
    if Walk(disk, f, start, Split(a), true).iNumber == 0 {
      FailedWalk(disk, f, start, Split(a));
      NothingInNothing(disk, f, name);
    }
  }

  lemma NothingInNothing(disk: seq<DiskBlock>, f: uint32, name: seq<byte>)
    ensures Walk(disk, f, ZeroInode(), [name], true) == ZeroInode()
  {
  }

  lemma ShallowPathSplits(disk: seq<DiskBlock>, f: uint32, root: Inode, cwd: Inode, path: seq<byte>)
    requires LastSlash(path) <= 0
    ensures Resolve(disk, f, root, cwd, path, true)
         == Walk(disk, f, Parent(disk, f, root, cwd, path), [NamePart(path)], true)
  {
    hide Lookup, Walk, Split, LastSlash;
    SplitNoSlash(NamePart(path));
  }

  lemma DeepPathSplits(disk: seq<DiskBlock>, f: uint32, root: Inode, cwd: Inode, path: seq<byte>, i: nat)
    requires LastSlash(path) == i > 0
    ensures Resolve(disk, f, root, cwd, path, true)
         == Walk(disk, f, Resolve(disk, f, root, cwd, path[..i], true), [NamePart(path)], true)
  {
    hide Lookup, Walk, Split, LastSlash;
    CutAtSlash(path, i);
    if path[0] == SLASH {
      WalkSplits(disk, f, root, path[..i][1..], NamePart(path));
    } else {
      WalkSplits(disk, f, cwd, path[..i], NamePart(path));
    }
  }

  /** For every path, resolving it is looking its last component up in the directory of the rest. */
  lemma PathSplits(disk: seq<DiskBlock>, f: uint32, root: Inode, cwd: Inode, path: seq<byte>)
    ensures Resolve(disk, f, root, cwd, path, true)
         == Walk(disk, f, Parent(disk, f, root, cwd, path), [NamePart(path)], true)
  {
    hide Walk, Resolve, LastSlash;
    if LastSlash(path) <= 0 {
      ShallowPathSplits(disk, f, root, cwd, path);
    } else {
      DeepPathSplits(disk, f, root, cwd, path, LastSlash(path));
    }
  }

  /** The same with a plain lookup, provided that its long names cannot match and that a found record has its number. */
  lemma PathLaw(disk: seq<DiskBlock>, f: uint32, root: Inode, cwd: Inode, path: seq<byte>)
    requires CString(path)
    requires |NamePart(path)| < NAME_LIMIT || DirNamesFit(disk, Parent(disk, f, root, cwd, path))
    ensures var found := Lookup(disk, f, Parent(disk, f, root, cwd, path), NamePart(path), 0);
            && (Resolve(disk, f, root, cwd, path, true) == if found.iNumber == 0 then ZeroInode() else found)
            && (Resolve(disk, f, root, cwd, path, true) == found <==> (found.iNumber == 0 ==> found == ZeroInode()))
  {
    hide Lookup, Resolve, LastSlash, Parent;
    PathSplits(disk, f, root, cwd, path);
    if |NamePart(path)| >= NAME_LIMIT {
      LongLookup(disk, f, Parent(disk, f, root, cwd, path), NamePart(path), 0);
    }
  }

  /** What stands behind a path is resolved from the inode that the path resolves to. */
  lemma ResolveBehind(disk: seq<DiskBlock>, f: uint32, root: Inode, cwd: Inode, path: seq<byte>, rest: seq<byte>)
    requires path != []
    ensures var n := Resolve(disk, f, root, cwd, path, true);
            var m := Resolve(disk, f, root, cwd, path + [SLASH] + rest, true);
            m == if n.iNumber == 0 then ZeroInode() else Walk(disk, f, n, Split(rest), true)
  {
    hide Walk, Split;
    var whole := path + [SLASH] + rest;
    if path[0] == SLASH {
      assert whole[1..] == path[1..] + [SLASH] + rest;
      SplitAtSlash(path[1..], rest);
      WalkOn(disk, f, root, Split(path[1..]), Split(rest));
    } else {
      SplitAtSlash(path, rest);
      WalkOn(disk, f, cwd, Split(path), Split(rest));
    }
  }

  lemma CutAtSlash(path: seq<byte>, i: nat)
    requires 0 < i < |path| && path[i] == SLASH
    ensures path == path[..i] + [SLASH] + path[i + 1..]
    ensures path[1..] == path[..i][1..] + [SLASH] + path[i + 1..]
    ensures path[..i] != [] && path[..i][0] == path[0]
  {
  }

  lemma {:induction false} FailedWalk(disk: seq<DiskBlock>, f: uint32, dir: Inode, comps: seq<seq<byte>>)
    requires |comps| > 0 && Walk(disk, f, dir, comps, true).iNumber == 0
    ensures Walk(disk, f, dir, comps, true) == ZeroInode()
    decreases |comps|
  {
    hide Lookup;
    if |comps| > 1 {
      var n := if |comps[0]| >= NAME_LIMIT then ZeroInode() else Lookup(disk, f, dir, comps[0], 0);
      if n.iNumber != 0 {
        FailedWalk(disk, f, n, comps[1..]);
      }
    }
  }
}
