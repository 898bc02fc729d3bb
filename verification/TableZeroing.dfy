/** How a new page table is zeroed when the address still carries the flag bits of its directory entry. */
module TableZeroing {
  import opened Bitwise
  import opened PhysicalMemory
  import opened PageTables

  /** Memory with n bytes from p on set to a value. */
  function Filled(mem: seq<byte>, p: nat, value: byte, n: nat): (r: seq<byte>)
    requires p + n <= |mem|
    ensures |r| == |mem|
    ensures forall i | 0 <= i < |mem| :: r[i] == if p <= i < p + n then value else mem[i]
  {
    mem[..p] + seq(n, _ => value) + mem[p + n..]
  }

  method Memset(mem: array<byte>, ptr: nat, value: byte, length: nat)
    requires ptr + length <= mem.Length
    modifies mem
    ensures mem[..] == Filled(old(mem[..]), ptr, value, length)
  {
    for i := 0 to length
      invariant mem[..] == Filled(old(mem[..]), ptr, value, i)
    {
      mem[ptr + i] := value;
    }
  }

  /** The call that `create_page_table` makes: from the entry, flags included, for the size of a page. */
  method ZeroNewTable(mem: array<byte>, block: uint32, flags: uint32)
    requires block % 4096 == 0 && flags < 4096 && block + 4096 + flags <= mem.Length
    modifies mem
    ensures mem[..] == Filled(old(mem[..]), block + flags, 0, 4096)
  {
    Memset(mem, Entry(block, flags), 0, 4096);
  }

  /** It zeroes the table and nothing else iff the bytes below the flag value, in the table and in the frame behind it,
      were zero before. */
  lemma ZeroesTheTableIff(mem: seq<byte>, block: nat, flags: nat)
    requires flags < 4096 && block + 4096 + flags <= |mem|
    ensures Filled(mem, block + flags, 0, 4096) == Filled(mem, block, 0, 4096)
       <==> forall i | 0 <= i < |mem| && (block <= i < block + flags || block + 4096 <= i < block + 4096 + flags) ::
              mem[i] == 0
  {
  }

  /** With the usual flags, 7, and memory in use, the first entry of the new table keeps what was there,
      and the first entry of the frame behind it is lost. */
  lemma FirstEntrySurvives(mem: seq<byte>)
    requires |mem| == 3 * 4096 && forall i | 0 <= i < |mem| :: mem[i] == 1
    ensures Filled(mem, 4096 + 7, 0, 4096) != Filled(mem, 4096, 0, 4096)
    ensures Filled(mem, 4096 + 7, 0, 4096)[4096] == 1 && Filled(mem, 4096 + 7, 0, 4096)[8192] == 0
  {
    assert Filled(mem, 4096, 0, 4096)[4096] == 0;
  }

  /** 256 to the k, for the four bytes of a word. */
  function Radix(k: nat): (r: nat)
    requires k < 4
    ensures r > 0
  {
    if k == 0 then 1 else if k == 1 then 0x100 else if k == 2 then 0x1_0000 else 0x100_0000
  }

  /** Byte i of a little-endian word. */
  function ByteOf(w: uint32, i: nat): byte
    requires i < 4
  {
    w / Radix(i) % 0x100
  }

  /** The byte at a physical address. */
  function ByteAt(mem: seq<Frame>, a: nat): byte
    requires |mem| == PAGES && a < PAGES * 4096
  {
    ByteOf(mem[a / 4096][a % 4096 / 4], a % 4)
  }

  /** What the call leaves of the new table: the bytes below the flag value. */
  function Kept(f: Frame, flags: nat): Frame
    requires flags < 4096
  {
    seq(1024, j requires 0 <= j < 1024 =>
      if j < flags / 4 then f[j] else if j == flags / 4 then f[j] % Radix(flags % 4) else 0)
  }

  /** What it leaves of the frame behind: the bytes from the flag value on. */
  function CutOff(f: Frame, flags: nat): Frame
    requires flags < 4096
  {
    seq(1024, j requires 0 <= j < 1024 =>
      if j < flags / 4 then 0 else if j == flags / 4 then f[j] - f[j] % Radix(flags % 4) else f[j])
  }

  /** Memory after the literal call, in words. */
  function LiterallyZeroed(mem: seq<Frame>, frame: nat, flags: nat): (r: seq<Frame>)
    requires |mem| == PAGES && frame + 1 < PAGES && flags < 4096
    ensures |r| == PAGES
  {
    mem[frame := Kept(mem[frame], flags)][frame + 1 := CutOff(mem[frame + 1], flags)]
  }

  function Word(b0: int, b1: int, b2: int, b3: int): int { b0 + 0x100 * b1 + 0x1_0000 * b2 + 0x100_0000 * b3 }

  /** A word cut at byte r. */
  lemma CutWord(b0: byte, b1: byte, b2: byte, b3: byte, r: nat)
    requires r < 4
    ensures 0 <= Word(b0, b1, b2, b3) < 0x1_0000_0000
    ensures Word(b0, b1, b2, b3) % Radix(r)
         == Word(if r > 0 then b0 else 0, if r > 1 then b1 else 0, if r > 2 then b2 else 0, 0)
    ensures Word(b0, b1, b2, b3) / Radix(r)
         == if r == 0 then Word(b0, b1, b2, b3) else if r == 1 then Word(b1, b2, b3, 0)
            else if r == 2 then Word(b2, b3, 0, 0) else b3
  {
    var w := Word(b0, b1, b2, b3);
    assert Radix(0) == 1 && Radix(1) == 0x100 && Radix(2) == 0x1_0000 && Radix(3) == 0x100_0000;
    hide Radix;
    if r == 0 {
      DivUnique(w, Radix(0), w, 0);
    } else if r == 1 {
      DivUnique(w, Radix(1), Word(b1, b2, b3, 0), b0);
    } else if r == 2 {
      DivUnique(w, Radix(2), Word(b2, b3, 0, 0), Word(b0, b1, 0, 0));
    } else {
      DivUnique(w, Radix(3), b3, Word(b0, b1, b2, 0));
    }
  }

  lemma BytesOfWord(b0: byte, b1: byte, b2: byte, b3: byte, i: nat)
    requires i < 4
    ensures 0 <= Word(b0, b1, b2, b3) < 0x1_0000_0000
    ensures ByteOf(Word(b0, b1, b2, b3), i) == if i == 0 then b0 else if i == 1 then b1 else if i == 2 then b2 else b3
  {
    hide Radix;
    CutWord(b0, b1, b2, b3, i);
    if i == 0 {
      LowByte(b0, b1, b2, b3);
    } else if i == 1 {
      LowByte(b1, b2, b3, 0);
    } else if i == 2 {
      LowByte(b2, b3, 0, 0);
    }
  }

  lemma LowByte(b0: byte, b1: byte, b2: byte, b3: byte)
    ensures Word(b0, b1, b2, b3) % 0x100 == b0
  {
    DivUnique(Word(b0, b1, b2, b3), 0x100, Word(b1, b2, b3, 0), b0);
  }

  /** The bytes of a word, the lowest one first. */
  lemma WordOfBytes(w: uint32)
    ensures w == Word(ByteOf(w, 0), ByteOf(w, 1), ByteOf(w, 2), ByteOf(w, 3))
    ensures ByteOf(w, 0) == w % 0x100 && ByteOf(w, 1) == w / 0x100 % 0x100
    ensures ByteOf(w, 2) == w / 0x1_0000 % 0x100 && ByteOf(w, 3) == w / 0x100_0000
  {
    var x, y := w / 0x100, w / 0x1_0000;
    assert x / 0x100 == y && y / 0x100 == w / 0x100_0000 < 0x100;
  }

  lemma BytesOfParts(w: uint32, r: nat, i: nat)
    requires r < 4 && i < 4
    ensures ByteOf(w % Radix(r), i) == if i < r then ByteOf(w, i) else 0
    ensures ByteOf(w - w % Radix(r), i) == if i < r then 0 else ByteOf(w, i)
  {
    hide ByteOf, Word;
    var b0, b1, b2, b3 := ByteOf(w, 0), ByteOf(w, 1), ByteOf(w, 2), ByteOf(w, 3);
    WordOfBytes(w);
    CutWord(b0, b1, b2, b3, r);
    BytesOfWord(if r > 0 then b0 else 0, if r > 1 then b1 else 0, if r > 2 then b2 else 0, 0, i);
    BytesOfWord(if r > 0 then 0 else b0, if r > 1 then 0 else b1, if r > 2 then 0 else b2, b3, i);
    assert w - w % Radix(r) == Word(if r > 0 then 0 else b0, if r > 1 then 0 else b1, if r > 2 then 0 else b2, b3) by {
      Difference(b0, b1, b2, b3, r);
    }
  }

  lemma Difference(b0: byte, b1: byte, b2: byte, b3: byte, r: nat)
    ensures Word(b0, b1, b2, b3) - Word(if r > 0 then b0 else 0, if r > 1 then b1 else 0, if r > 2 then b2 else 0, 0)
         == Word(if r > 0 then 0 else b0, if r > 1 then 0 else b1, if r > 2 then 0 else b2, b3)
  {
  }

  lemma OffsetOrder(o: nat, flags: nat)
    ensures o < flags <==> o / 4 < flags / 4 || (o / 4 == flags / 4 && o % 4 < flags % 4)
  {
  }

  lemma InRange(frame: nat, flags: nat, a: nat)
    requires flags < 4096
    ensures frame * 4096 + flags <= a < frame * 4096 + flags + 4096 <==>
              (a / 4096 == frame && a % 4096 >= flags) || (a / 4096 == frame + 1 && a % 4096 < flags)
  {
  }

  lemma PartBytes(f: Frame, flags: nat, o: nat)
    requires flags < 4096 && o < 4096
    ensures ByteOf(Kept(f, flags)[o / 4], o % 4) == if o < flags then ByteOf(f[o / 4], o % 4) else 0
    ensures ByteOf(CutOff(f, flags)[o / 4], o % 4) == if o < flags then 0 else ByteOf(f[o / 4], o % 4)
  {
    hide Radix, ByteOf;
    OffsetOrder(o, flags);
    BytesOfParts(f[o / 4], flags % 4, o % 4);
    BytesOfParts(0, 0, o % 4);
  }

  /** In bytes that is the call: 4096 zeros from the flag value on, all else as before. */
  lemma LiteralBytes(mem: seq<Frame>, frame: nat, flags: nat, a: nat)
    requires |mem| == PAGES && frame + 1 < PAGES && flags < 4096 && a < PAGES * 4096
    ensures ByteAt(LiterallyZeroed(mem, frame, flags), a)
         == if frame * 4096 + flags <= a < frame * 4096 + flags + 4096 then 0 else ByteAt(mem, a)
  {
    hide Kept, CutOff, ByteOf;
    InRange(frame, flags, a);
    PartBytes(mem[a / 4096], flags, a % 4096);
    assert a % 4096 % 4 == a % 4;
  }

  /** The bytes of the frame below the flag value are zero. */
  predicate StartsZero(f: Frame, flags: nat)
    requires flags < 4096
  {
    (forall j | 0 <= j < flags / 4 :: f[j] == 0) && f[flags / 4] % Radix(flags % 4) == 0
  }

  lemma KeptIsZero(f: Frame, flags: nat)
    requires flags < 4096
    ensures Kept(f, flags) == ZeroFrame() <==> StartsZero(f, flags)
    ensures CutOff(f, flags) == f <==> StartsZero(f, flags)
  {
    hide Radix;
    var k, c := Kept(f, flags), CutOff(f, flags);
    assert StartsZero(f, flags) ==> k == ZeroFrame() && c == f;
    forall j: nat | j <= flags / 4
      ensures k == ZeroFrame() || c == f ==> if j < flags / 4 then f[j] == 0 else f[j] % Radix(flags % 4) == 0
    {
      assert k == ZeroFrame() ==> k[j] == 0;
      assert c == f ==> c[j] == f[j];
    }
  }

  /** The frame is the directory or one of its tables. */
  predicate InUseByPaging(mem: seq<Frame>, dir: nat, f: nat)
    requires |mem| == PAGES && dir < PAGES
  {
    f == dir || exists i | 0 <= i < ENTRIES :: mem[dir][i] != 0 && mem[dir][i] / 4096 == f
  }

  /** Memory after the directory entry is written and the literal call made. */
  function WithTable(mem: seq<Frame>, dir: nat, index: nat, frame: nat, flags: uint32): (r: seq<Frame>)
    requires |mem| == PAGES && dir < PAGES && index < ENTRIES && 0 < frame && frame + 1 < PAGES && flags < 4096
    ensures |r| == PAGES
  {
    LiterallyZeroed(mem[dir := mem[dir][index := frame * 4096 + flags]], frame, flags)
  }

  /** The words that the translation depends on are what they should be. */
  ghost predicate Unharmed(mem: seq<Frame>, dir: nat, index: nat, frame: nat, flags: uint32)
    requires |mem| == PAGES && dir < PAGES && index < ENTRIES && 0 < frame && frame + 1 < PAGES && flags < 4096
  {
    var r := WithTable(mem, dir, index, frame, flags);
    && r[frame] == ZeroFrame() && r[dir] == mem[dir][index := frame * 4096 + flags]
    && (InUseByPaging(mem, dir, frame + 1) && frame + 1 != dir ==> r[frame + 1] == mem[frame + 1])
  }

  lemma UnharmedAddsTable(mem: seq<Frame>, dir: nat, used: set<nat>, index: nat, frame: nat, flags: uint32)
    requires |mem| == PAGES && dir < PAGES && index < ENTRIES && Separate(Read(mem, dir, used), dir)
    requires mem[dir][index] == 0 && 0 < frame && frame + 1 < PAGES && frame !in used && flags < 4096
    requires Unharmed(mem, dir, index, frame, flags)
    ensures AddsTable(Read(mem, dir, used), Read(WithTable(mem, dir, index, frame, flags), dir, used + {frame}),
                      index, frame, flags)
  {
    hide StartsZero, Kept, CutOff;
    var r := WithTable(mem, dir, index, frame, flags);
    var v, m := Read(mem, dir, used), Read(r, dir, used + {frame});
    forall p | 0 <= p < PAGES
      ensures m.leaf[p] == v.leaf[p]
    {
      assert v.pd[p / 1024] != 0 ==> v.pd[p / 1024] / 4096 != frame && v.pd[p / 1024] / 4096 != dir;
    }
  }

  lemma AddsTableUnharmed(mem: seq<Frame>, dir: nat, used: set<nat>, index: nat, frame: nat, flags: uint32)
    requires |mem| == PAGES && dir < PAGES && index < ENTRIES && Separate(Read(mem, dir, used), dir)
    requires mem[dir][index] == 0 && 0 < frame && frame + 1 < PAGES && frame !in used && flags < 4096
    requires AddsTable(Read(mem, dir, used), Read(WithTable(mem, dir, index, frame, flags), dir, used + {frame}),
                       index, frame, flags)
    ensures Unharmed(mem, dir, index, frame, flags)
  {
    hide StartsZero, Kept, CutOff;
    var r := WithTable(mem, dir, index, frame, flags);
    var v, m := Read(mem, dir, used), Read(r, dir, used + {frame});
    forall j | 0 <= j < ENTRIES
      ensures r[frame][j] == 0
    {
      assert m.leaf[index * 1024 + j] == v.leaf[index * 1024 + j];
    }
    assert r[frame] == ZeroFrame();
    if i :| 0 <= i < ENTRIES && mem[dir][i] != 0 && mem[dir][i] / 4096 == frame + 1 {
      var after, before := r[frame + 1], mem[frame + 1];
      forall j | 0 <= j < ENTRIES
        ensures after[j] == before[j]
      {
        assert m.leaf[i * 1024 + j] == v.leaf[i * 1024 + j];
      }
    }
  }

  /** With the literal call, pointing an empty slot at a free frame adds an empty table, as it is meant to, iff the
      bytes of the new frame below the flag value were zero, and those of the frame behind it if paging uses that. */
  lemma LiteralZeroingAddsTable(mem: seq<Frame>, dir: nat, used: set<nat>, index: nat, frame: nat, flags: uint32)
    requires |mem| == PAGES && dir < PAGES && index < ENTRIES && Separate(Read(mem, dir, used), dir)
    requires mem[dir][index] == 0 && 0 < frame && frame + 1 < PAGES && frame !in used && flags < 4096
    ensures AddsTable(Read(mem, dir, used), Read(WithTable(mem, dir, index, frame, flags), dir, used + {frame}),
                      index, frame, flags)
       <==> StartsZero(mem[frame], flags)
            && (frame + 1 == dir ==> StartsZero(mem[dir][index := frame * 4096 + flags], flags))
            && (frame + 1 != dir && InUseByPaging(mem, dir, frame + 1) ==> StartsZero(mem[frame + 1], flags))
  {
    hide StartsZero, Kept, CutOff, AddsTable;
    var r := WithTable(mem, dir, index, frame, flags);
    KeptIsZero(mem[frame], flags);
    KeptIsZero(if frame + 1 == dir then mem[dir][index := frame * 4096 + flags] else mem[frame + 1], flags);
    if Unharmed(mem, dir, index, frame, flags) {
      UnharmedAddsTable(mem, dir, used, index, frame, flags);
    }
    if AddsTable(Read(mem, dir, used), Read(r, dir, used + {frame}), index, frame, flags) {
      AddsTableUnharmed(mem, dir, used, index, frame, flags);
    }
  }
}
