/** The 80x25 text screen as a window onto an ever growing log of lines. */
module Console {

  const VGA_WIDTH: nat := 80
  const VGA_HEIGHT: nat := 25
  const NUL: char := '\0'
  const BACKSPACE: char := 8 as char

  type Row = r: seq<char> | |r| == 80 witness seq(80, _ => '\0')

  function BlankRow(): Row { seq(80, _ => '\0') }

  /** All lines so far; the first one in the window; the cursor, its line counted from the start of the log. */
  datatype Log = Log(rows: seq<Row>, top: nat, x: nat, y: nat) {

    /** The log ends where the window does, and the cursor is in the window. */
    predicate Valid() {
      |rows| == top + 25 && x < 80 && top <= y < top + 25
    }

    function Write(c: char): (l: Log)
      requires Valid()
      ensures l.Valid()
    {
      this.(rows := rows[y := rows[y][x := c]])
    }

    /** Moves the cursor to the start of the next line, which may have to be added. */
    function NewLine(): (l: Log)
      requires Valid()
      ensures l.Valid() && l.x == 0 && l.y == y + 1
    {
      if y + 1 < top + 25 then this.(x := 0, y := y + 1)
      else Log(rows + [BlankRow()], top + 1, 0, y + 1)
    }

    function Advance(): (l: Log)
      requires Valid()
      ensures l.Valid() && l.x % 4 == (x + 1) % 4
    {
      if x + 1 < 80 then this.(x := x + 1) else NewLine()
    }

    /** One step back inside the window, erasing what is there. */
    function Erase(): (l: Log)
      requires Valid()
      ensures l.Valid()
    {
      (if x > 0 then this.(x := x - 1)
       else if y > top then this.(x := 79, y := y - 1)
       else this).Write(' ')
    }

    function Spaces(n: nat): (l: Log)
      requires Valid()
      ensures l.Valid() && l.x % 4 == (x + n) % 4
    {
      if n == 0 then this
      else
        SameRest(Spaces(n - 1).x, x + n - 1);
        Spaces(n - 1).Write(' ').Advance()
    }

    /** A cursor position of the window, or one just past the end of a line or of the window. */
    ghost predicate At(col: int, line: int) {
      (0 <= line < 25 && 0 <= col <= 80) || (line == 25 && col == 0)
    }

    /** The log with the cursor put there. */
    ghost function Settled(col: int, line: int): (l: Log)
      requires Valid() && At(col, line)
      ensures l.Valid()
    {
      if line == 25 then this.(x := 0, y := top + 24).NewLine()
      else if col == 80 then this.(x := 0, y := top + line).NewLine()
      else this.(x := col, y := top + line)
    }

    lemma Settles(c: char)
      requires Valid()
      ensures Settled(x, y - top) == this && Settled(0, y - top) == this.(x := 0)
      ensures Settled(0, y - top + 1) == NewLine()
      ensures Write(c).Settled(x + 1, y - top) == Write(c).Advance()
    {
    }

    function Put(c: char): (l: Log)
      requires Valid()
      ensures l.Valid()
    {
      if c == '\n' then NewLine()
      else if c == '\t' then Spaces(TabSpaces(x))
      else if c == '\r' then this.(x := 0)
      else if c == BACKSPACE then Erase()
      else Write(c).Advance()
    }

    lemma SpacesStep(i: nat)
      requires Valid()
      ensures Spaces(0) == this && Spaces(i + 1) == Spaces(i).Put(' ')
    {
    }

    function PutAll(s: seq<char>): (l: Log)
      requires Valid()
      ensures l.Valid()
    {
      if s == [] then this else PutAll(s[..|s| - 1]).Put(s[|s| - 1])
    }
  }

  function EmptyLog(): (l: Log)
    ensures l.Valid()
  {
    Log(seq(25, _ => BlankRow()), 0, 0, 0)
  }

  lemma SameRest(a: nat, b: nat)
    requires a % 4 == b % 4
    ensures (a + 1) % 4 == (b + 1) % 4
  {
    assert (a + 1) % 4 == (a % 4 + 1) % 4;
  }

  /** How many spaces a tab gives. The loop compares with a bound that moves along with the cursor. */
  function TabSpaces(x: nat): nat {
    if x % 4 < 2 then 2 else if x % 4 == 2 then 1 else 3
  }

  /** The moving bound stops the loop after exactly that many spaces. */
  lemma TabStops(x: nat, i: nat)
    requires i <= TabSpaces(x)
    ensures i < 4 - (x + i) % 4 <==> i < TabSpaces(x)
  {
  }

  class Screen {
    const vga: array2<char>
    var screenX: int
    var screenY: int
    ghost var log: Log

    /** The screen shows the window of the log. */
    ghost predicate Valid()
      reads this, vga
    {
      log.Valid() && Shows(log) && screenX == log.x && screenY == log.y - log.top
    }

    ghost predicate Shows(l: Log)
      requires l.Valid()
      reads vga
    {
      && vga.Length0 == 25 && vga.Length1 == 80
      && forall y: nat, x: nat | y < 25 && x < 80 :: vga[y, x] == l.rows[l.top + y][x]
    }

    constructor ()
      ensures Valid() && fresh(vga) && log == EmptyLog()
    {
      vga := new char[25, 80]((_, _) => '\0');
      screenX, screenY, log := 0, 0, EmptyLog();
    }

    /** Copies the rows upwards in place and blanks the last ones. */
    method Scrollback(lines: nat)
      requires vga.Length0 == 25 && vga.Length1 == 80 && lines <= 25
      modifies this`screenY, vga
      ensures screenY == old(screenY) - lines
      ensures forall y: nat, x: nat | y < 25 && x < 80 ::
                vga[y, x] == if y + lines < 25 then old(vga[y + lines, x]) else NUL
    {
      for y := lines to VGA_HEIGHT
        invariant screenY == old(screenY)
        invariant forall v: nat, x: nat | v < 25 && x < 80 ::
            vga[v, x] == if v + lines < y then old(vga[v + lines, x]) else old(vga[v, x])
      {
        for x := 0 to VGA_WIDTH
          invariant screenY == old(screenY)
          invariant forall v: nat, w: nat | v < 25 && w < 80 ::
              vga[v, w] == if v + lines < y || (v + lines == y && w < x) then old(vga[v + lines, w]) else old(vga[v, w])
        {
          vga[y - lines, x] := vga[y, x];
        }
      }
      for y := VGA_HEIGHT - lines to VGA_HEIGHT
        invariant screenY == old(screenY)
        invariant forall v: nat, x: nat | v < 25 && x < 80 ::
            vga[v, x] == if v + lines < 25 then old(vga[v + lines, x]) else if v < y then NUL else old(vga[v, x])
      {
        for x := 0 to VGA_WIDTH
          invariant screenY == old(screenY)
          invariant forall v: nat, w: nat | v < 25 && w < 80 ::
              vga[v, w] == if v + lines < 25 then old(vga[v + lines, w])
                           else if v < y || (v == y && w < x) then NUL else old(vga[v, w])
        {
          vga[y, x] := NUL;
        }
      }
      screenY := screenY - lines;
    }

    method Clrscr()
      requires vga.Length0 == 25 && vga.Length1 == 80
      modifies this, vga
      ensures Valid() && log == EmptyLog()
    {
      for y := 0 to VGA_HEIGHT
        invariant forall v: nat, x: nat | v < y && x < 80 :: vga[v, x] == NUL
      {
        for x := 0 to VGA_WIDTH
          invariant forall v: nat, w: nat | v < 25 && w < 80 && (v < y || (v == y && w < x)) :: vga[v, w] == NUL
        {
          vga[y, x] := NUL;
        }
      }
      screenX, screenY := 0, 0;
      log := EmptyLog();
    }

    method Putchar(x: nat, y: nat, c: char, ghost l: Log)
      requires l.Valid() && Shows(l) && x < 80 && y < 25
      modifies vga
      ensures var t := l.(x := x, y := l.top + y).Write(c); t.Valid() && Shows(t.(x := l.x, y := l.y))
    {
      vga[y, x] := c;
    }

    /** The end of `putc`: wraps the line, and scrolls when the cursor has left the window. */
    method Settle(ghost l: Log)
      requires l.Valid() && Shows(l) && l.At(screenX, screenY)
      modifies this, vga
      ensures Valid() && log == l.Settled(old(screenX), old(screenY))
    {
      ghost var x0, y0 := screenX, screenY;
      if screenX >= VGA_WIDTH {
        screenY := screenY + 1;
        screenX := 0;
      }
      if screenY >= VGA_HEIGHT {
        Scrollback(1);
      }
      log := l.Settled(x0, y0);
    }

    /** Spaces up to a bound that is computed again after each of them. */
    method Tab()
      requires Valid()
      modifies this, vga
      ensures Valid() && log == old(log).Spaces(TabSpaces(old(log).x))
      decreases 1
    {
      hide Log.Valid, Log.Spaces, Log.Put, Shows, TabSpaces;
      ghost var l := log;
      var i := 0;
      l.SpacesStep(0);
      TabStops(l.x, 0);
      while i < 4 - screenX % 4
        invariant Valid() && 0 <= i <= TabSpaces(l.x) && log == l.Spaces(i)
        invariant i < 4 - screenX % 4 <==> i < TabSpaces(l.x)
        decreases 4 - i
      {
        TabStops(l.x, i);
        l.SpacesStep(i);
        Putc(' ');
        i := i + 1;
        TabStops(l.x, i);
      }
    }

    /** One character, as the log takes it. */
    method Putc(c: char)
      requires Valid()
      modifies this, vga
      ensures Valid() && log == old(log).Put(c)
      decreases if c == '\t' then 2 else 0
    {
      hide Log.Settled, Log.NewLine, Log.Spaces, Shows;
      ghost var l := log;
      l.Settles(c);
      match c {
        case '\n' =>
          screenX := 0;
          screenY := screenY + 1;
        case '\t' =>
          Tab();
          l := log;
          l.Settles(' ');
        case '\r' =>
          screenX := 0;
        case _ =>
          if c == BACKSPACE {
            if screenX > 0 {
              screenX := screenX - 1;
            } else if screenY > 0 {
              screenY := screenY - 1;
              screenX := VGA_WIDTH - 1;
            }
            Putchar(screenX, screenY, ' ', l);
            l := l.Erase();
            l.Settles(' ');
          } else {
            Putchar(screenX, screenY, c, l);
            screenX := screenX + 1;
            l := l.Write(c);
          }
      }
      Settle(l);
    }

    method Puts(s: seq<char>)
      requires Valid()
      modifies this, vga
      ensures Valid() && log == old(log).PutAll(s)
    {
      assert s[..0] == [];
      for i := 0 to |s|
        invariant Valid() && log == old(log).PutAll(s[..i])
      {
        Putc(s[i]);
        assert s[..i + 1][..i] == s[..i];
      }
      assert s[..|s|] == s;
    }
  }

  /** Lines that have left the window stay as they are, and the window only moves down. */
  lemma HistoryKept(l: Log, c: char)
    requires l.Valid()
    ensures l.top <= l.Put(c).top && l.rows[..l.top] == l.Put(c).rows[..l.top]
  {
    if c == '\t' {
      SpacesKeepHistory(l, TabSpaces(l.x));
    }
  }

  lemma {:induction false} SpacesKeepHistory(l: Log, n: nat)
    requires l.Valid()
    ensures l.top <= l.Spaces(n).top && l.rows[..l.top] == l.Spaces(n).rows[..l.top]
    decreases n
  {
    if n > 0 {
      SpacesKeepHistory(l, n - 1);
      var m := l.Spaces(n - 1);
      var w := m.Write(' ').Advance();
      assert w.rows[..m.top] == m.rows[..m.top];
      assert w.rows[..m.top][..l.top] == m.rows[..m.top][..l.top];
    }
  }

  /** For any input, what has scrolled out of the window is never written again. */
  lemma {:induction false} HistoryNeverChanges(l: Log, s: seq<char>)
    requires l.Valid()
    ensures l.top <= l.PutAll(s).top && l.rows[..l.top] == l.PutAll(s).rows[..l.top]
    decreases |s|
  {
    if s != [] {
      var m := l.PutAll(s[..|s| - 1]);
      HistoryNeverChanges(l, s[..|s| - 1]);
      HistoryKept(m, s[|s| - 1]);
      var w := m.Put(s[|s| - 1]);
      assert w.rows[..m.top][..l.top] == m.rows[..m.top][..l.top];
    }
  }

  predicate IsPlain(c: char) {
    c != '\n' && c != '\t' && c != '\r' && c != BACKSPACE
  }

  /** Character k of a plain text is in column k % 80 of line k / 80 of the log, however often the screen scrolled. */
  lemma {:induction false} PlainTextKept(s: seq<char>)
    requires forall c | c in s :: IsPlain(c)
    ensures var l := EmptyLog().PutAll(s);
            && l.y == |s| / 80 && l.x == |s| % 80 && l.top == (if |s| / 80 < 25 then 0 else |s| / 80 - 24)
            && forall k: nat | k < |s| :: l.rows[k / 80][k % 80] == s[k]
    decreases |s|
  {
    if s != [] {
      var n := |s| - 1;
      assert s[n] in s;
      PlainTextKept(s[..n]);
      var m, l := EmptyLog().PutAll(s[..n]), EmptyLog().PutAll(s);
      assert l == m.Write(s[n]).Advance();
      forall k: nat | k < |s|
        ensures l.rows[k / 80][k % 80] == s[k]
      {
        if k < n {
          assert m.rows[k / 80][k % 80] == s[..n][k];
          assert k / 80 == n / 80 && k % 80 == n % 80 ==> k == n;
        }
      }
    }
  }

  lemma {:induction false} PutAllConcat(l: Log, s: seq<char>, t: seq<char>)
    requires l.Valid()
    ensures l.PutAll(s + t) == l.PutAll(s).PutAll(t)
    decreases |t|
  {
    if t == [] {
      assert s + t == s;
    } else {
      var n := |t| - 1;
      assert (s + t)[..|s| + n] == s + t[..n] && (s + t)[|s| + n] == t[n];
      PutAllConcat(l, s, t[..n]);
    }
  }

  lemma OneChar(l: Log, c: char)
    requires l.Valid()
    ensures l.PutAll([]) == l && l.PutAll([c]) == l.Put(c)
  {
    assert [c][..0] == [];
  }

  /** Plain text that ends before the line does replaces what was there, from the cursor on. */
  lemma {:induction false} PlainOverwrites(l: Log, t: seq<char>)
    requires l.Valid() && l.x + |t| < 80 && forall c | c in t :: IsPlain(c)
    ensures var row := l.rows[l.y];
            l.PutAll(t) == l.(x := l.x + |t|, rows := l.rows[l.y := row[..l.x] + t + row[l.x + |t|..]])
    decreases |t|
  {
    var row := l.rows[l.y];
    if t == [] {
      assert row[..l.x] + t + row[l.x..] == row;
    } else {
      var n := |t| - 1;
      assert t[n] in t;
      PlainOverwrites(l, t[..n]);
      assert (row[..l.x] + t[..n] + row[l.x + n..])[l.x + n := t[n]] == row[..l.x] + t + row[l.x + |t|..];
    }
  }

  /** A carriage return goes back to column 0 of the same line; what follows overwrites from there. */
  lemma ReturnOverwrites(l: Log, t: seq<char>)
    requires l.Valid() && |t| < 80 && forall c | c in t :: IsPlain(c)
    ensures l.PutAll(['\r'] + t) == l.(x := |t|, rows := l.rows[l.y := t + l.rows[l.y][|t|..]])
  {
    hide Log.PutAll;
    PutAllConcat(l, ['\r'], t);
    OneChar(l, '\r');
    var m := l.(x := 0);
    PlainOverwrites(m, t);
    var row := l.rows[l.y];
    assert row[..0] + t + row[|t|..] == t + row[|t|..];
  }

  /** k line ends take the cursor k lines further down, to column 0. The lines written so far stay as they are, and
      those that the window has to move down for are blank. */
  lemma {:induction false} LineEndsMoveDown(l: Log, k: nat)
    requires l.Valid() && k > 0
    ensures var m := l.PutAll(seq(k, _ => '\n'));
            && m.x == 0 && m.y == l.y + k && m.top == (if l.y + k < l.top + 25 then l.top else l.y + k - 24)
            && m.rows == l.rows + seq(m.top - l.top, _ => seq(80, _ => '\0'))
    decreases k
  {
    var s: seq<char> := seq(k, _ => '\n');
    assert s[..k - 1] == seq(k - 1, _ => '\n') && s[k - 1] == '\n';
    if k == 1 {
      assert s[..0] == [];
    } else {
      LineEndsMoveDown(l, k - 1);
    }
    var m := l.PutAll(s[..k - 1]);
    assert m.top > l.top ==> m.y == m.top + 24;
  }

  /** Lines of text with a line end between any two of them. */
  function Joined(lines: seq<seq<char>>): seq<char> {
    if lines == [] then []
    else if |lines| == 1 then lines[0]
    else Joined(lines[..|lines| - 1]) + ['\n'] + lines[|lines| - 1]
  }

  predicate IsLine(t: seq<char>) {
    |t| < 80 && forall c | c in t :: IsPlain(c)
  }

  /** Row r of a log shows the text t and nothing else. */
  ghost predicate ShowsLine(row: Row, t: seq<char>) {
    |t| <= 80 && row == t + seq(80 - |t|, _ => '\0')
  }

  /** Lines of plain text that are shorter than the screen is wide: line k of the text is line k of the log, however
      many there are, and the cursor is behind the last one. */
  lemma {:induction false} LinesKept(lines: seq<seq<char>>)
    requires lines != [] && forall t | t in lines :: IsLine(t)
    ensures var l, n := EmptyLog().PutAll(Joined(lines)), |lines| - 1;
            && l.x == |lines[n]| && l.y == n && l.top == (if n < 25 then 0 else n - 24)
            && (forall k: nat | k <= n :: ShowsLine(l.rows[k], lines[k]))
            && (forall k: nat | n < k < |l.rows| :: ShowsLine(l.rows[k], []))
    decreases |lines|
  {
    hide Log.PutAll, Log.Put, ShowsLine, IsPlain;
    var n := |lines| - 1;
    var t := lines[n];
    assert t in lines;
    BlankLine();
    if n == 0 {
      LineOnBlank(EmptyLog(), t);
    } else {
      var front := lines[..n];
      assert forall u | u in front :: u in lines;
      assert forall k: nat | k < n :: lines[k] == front[k];
      LinesKept(front);
      var m := EmptyLog().PutAll(Joined(front));
      PutAllConcat(EmptyLog(), Joined(front) + ['\n'], t);
      PutAllConcat(EmptyLog(), Joined(front), ['\n']);
      assert ['\n'] == seq(1, _ => '\n');
      LineEndsMoveDown(m, 1);
      LineOnBlank(m.PutAll(['\n']), t);
    }
  }

  lemma BlankLine()
    ensures ShowsLine(BlankRow(), [])
  {
  }

  /** Text put in a blank line. */
  lemma LineOnBlank(l: Log, t: seq<char>)
    requires l.Valid() && l.x == 0 && ShowsLine(l.rows[l.y], []) && IsLine(t)
    ensures var m := l.PutAll(t);
            && m == l.(x := |t|, rows := m.rows) && |m.rows| == |l.rows| && ShowsLine(m.rows[l.y], t)
            && forall k: nat | k < |l.rows| && k != l.y :: m.rows[k] == l.rows[k]
  {
    hide Log.PutAll;
    PlainOverwrites(l, t);
    var row := l.rows[l.y];
    assert row[..0] + t + row[|t|..] == t + seq(80 - |t|, _ => '\0');
  }

  /** A tab is two spaces from columns 0 and 1 of a group of four, one from column 2 and three from column 3. */
  lemma TabIsSpaces(l: Log)
    requires l.Valid()
    ensures l.PutAll(['\t']) == l.PutAll(if l.x % 4 < 2 then "  " else if l.x % 4 == 2 then " " else "   ")
  {
    hide Log.Spaces, Log.Put, Log.PutAll;
    var n := if l.x % 4 < 2 then 2 else if l.x % 4 == 2 then 1 else 3;
    OneChar(l, '\t');
    PutTab(l);
    SpacesAre(l, n);
    assert seq(1, _ => ' ') == " " && seq(2, _ => ' ') == "  " && seq(3, _ => ' ') == "   ";
  }

  lemma {:induction false} SpacesAre(l: Log, n: nat)
    requires l.Valid()
    ensures l.Spaces(n) == l.PutAll(seq(n, _ => ' '))
    decreases n
  {
    hide Log.Spaces, Log.Put, Log.PutAll;
    l.SpacesStep(0);
    OneChar(l, ' ');
    if n > 0 {
      SpacesAre(l, n - 1);
      l.SpacesStep(n - 1);
      PutAllConcat(l, seq(n - 1, _ => ' '), [' ']);
      OneChar(l.PutAll(seq(n - 1, _ => ' ')), ' ');
      assert seq(n, _ => ' ') == seq(n - 1, _ => ' ') + [' '];
    }
  }

  lemma PutTab(l: Log)
    requires l.Valid()
    ensures l.Put('\t') == l.Spaces(if l.x % 4 < 2 then 2 else if l.x % 4 == 2 then 1 else 3)
  {
  }

  /** A backspace takes the cursor back to where a plain character was put, even over a line end or a scroll,
      and leaves a space there. In the first column of the window's first line it stays where it is. */
  lemma BackspaceUndoes(l: Log, c: char)
    requires l.Valid() && IsPlain(c)
    ensures var u := l.Put(c).Put(8 as char);
            && u.x == l.x && u.y == l.y
            && u.rows[..|l.rows|] == l.rows[l.y := l.rows[l.y][l.x := ' ']]
            && (u.rows[|l.rows|..] == [] || u.rows[|l.rows|..] == [BlankRow()])
    ensures l.x == 0 && l.y == l.top ==> l.Put(8 as char) == l.(rows := l.rows[l.y := l.rows[l.y][0 := ' ']])
  {
    var w := l.Write(c).Advance();
    assert w.rows[..|l.rows|] == l.Write(c).rows;
    assert l.rows[l.y][l.x := c][l.x := ' '] == l.rows[l.y][l.x := ' '];
  }

  /** A tab never ends at a tab stop: the column is not a multiple of 4. */
  lemma TabMissesStops(l: Log)
    requires l.Valid()
    ensures l.Put('\t').x % 4 != 0
  {
  }
}
