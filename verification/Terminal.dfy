/**
  The 80x25 text terminal (src/terminal.cpp): cells, cursor and scrolling in place, against a page that is
  never scrolled.
 */
module Terminal {

  import opened Common

  const WIDTH: nat := 80
  const HEIGHT: nat := 25
  const CELLS: nat := 2000

  type Cell = x: int | 0 <= x < 0x10000

  const NEWLINE: Byte := 10
  const BACKSPACE: Byte := 8
  const SPACE: Byte := 32

  /** The cell for a character in light grey on black. char is signed, so its sign reaches the colour byte. */
  function Entry(c: Byte): Cell {
    if c < 128 then 0x0700 + c as int else 0xFF00 + c as int
  }

  const BLANK: Cell := 0x0720

  // ---------- The page ----------

  /** Rows of WIDTH cells, one after the other; the cursor is in the last row. */
  datatype Page = Page(cells: seq<Cell>, rows: nat, col: nat)

  ghost predicate PageOk(p: Page) {
    p.rows >= 1 && |p.cells| == WIDTH * p.rows && p.col < WIDTH
  }

  function BlankRow(): (r: seq<Cell>)
    ensures |r| == WIDTH && forall i :: 0 <= i < WIDTH ==> r[i] == BLANK
  {
    seq(WIDTH, _ => BLANK)
  }

  function EmptyPage(): Page { Page(BlankRow(), 1, 0) }

  function NewRow(p: Page): Page {
    Page(p.cells + BlankRow(), p.rows + 1, 0)
  }

  function Type(p: Page, c: Byte): (p': Page)
    requires PageOk(p)
    ensures PageOk(p')
  {
    var here := WIDTH * (p.rows - 1);
    if c == NEWLINE then NewRow(p)
    else if c == BACKSPACE then
      var col := if p.col > 0 then p.col - 1 else 0;
      p.(cells := p.cells[here + col := BLANK], col := col)
    else
      var p1 := p.(cells := p.cells[here + p.col := Entry(c)], col := p.col + 1);
      if p1.col >= WIDTH then NewRow(p1) else p1
  }

  function TypeAll(p: Page, s: seq<Byte>): (p': Page)
    requires PageOk(p)
    ensures PageOk(p')
    decreases |s|
  {
    if s == [] then p else TypeAll(Type(p, s[0]), s[1..])
  }

  /** The rows above the cursor are final: whatever is typed later, they stay as they are. */
  lemma {:induction false} RowsAboveAreFinal(p: Page, s: seq<Byte>)
    requires PageOk(p)
    ensures TypeAll(p, s).rows >= p.rows
    ensures TypeAll(p, s).cells[..WIDTH * (p.rows - 1)] == p.cells[..WIDTH * (p.rows - 1)]
    decreases |s|
  {
    if s != [] {
      var p1 := Type(p, s[0]);
      var n := WIDTH * (p.rows - 1);
      assert p1.cells[..n] == p.cells[..n];
      RowsAboveAreFinal(p1, s[1..]);
      var p2 := TypeAll(p1, s[1..]);
      assert p2.cells[..n] == p2.cells[..WIDTH * (p1.rows - 1)][..n];
      assert p1.cells[..n] == p1.cells[..WIDTH * (p1.rows - 1)][..n];
    }
  }

  /** The cell holds the character below, and above it light grey on black, or all ones behind a sign. */
  lemma EntryHolds(c: Byte)
    ensures Entry(c) % 256 == c as int && Entry(c) / 256 == (if c < 128 then 0x07 else 0xFF) && Entry(SPACE) == BLANK
  {
  }

  predicate Printable(c: Byte) { c != NEWLINE && c != BACKSPACE }

  /** Where the next character goes, counted from the top of the page. */
  function Position(p: Page): int { WIDTH * (p.rows - 1) + p.col }

  /** The page after n characters from its position on: they follow each other, and nothing else changes. */
  ghost predicate LaidOut(p: Page, p': Page, s: seq<Byte>)
    requires PageOk(p) && PageOk(p')
  {
    var at := Position(p);
    && Position(p') == at + |s| && |p'.cells| >= |p.cells|
    && (forall k :: 0 <= k < at ==> p'.cells[k] == p.cells[k])
    && (forall k {:trigger p'.cells[k]} :: at <= k < at + |s| ==> p'.cells[k] == Entry(s[k - at]))
    && (forall k :: at + |s| <= k < |p'.cells| ==> p'.cells[k] == if k < |p.cells| then p.cells[k] else BLANK)
  }

  lemma NothingLaidOut(p: Page)
    requires PageOk(p)
    ensures LaidOut(p, p, [])
  {
  }

  lemma CharIsLaidOut(p: Page, c: Byte)
    requires PageOk(p) && Printable(c)
    ensures LaidOut(p, Type(p, c), [c])
  {
  }

  lemma LaidOutAfter(p: Page, p1: Page, p2: Page, c: Byte, s: seq<Byte>)
    requires PageOk(p) && PageOk(p1) && PageOk(p2) && LaidOut(p, p1, [c]) && LaidOut(p1, p2, s)
    ensures LaidOut(p, p2, [c] + s)
  {
    hide Entry;
  }

  /** Text without control characters is laid out character by character, on over the end of a row. */
  lemma {:induction false} TextIsLaidOut(p: Page, s: seq<Byte>)
    requires PageOk(p) && forall i :: 0 <= i < |s| ==> Printable(s[i])
    ensures LaidOut(p, TypeAll(p, s), s)
    decreases |s|
  {
    hide LaidOut, Type;
    if s == [] {
      NothingLaidOut(p);
    } else {
      var p1 := Type(p, s[0]);
      CharIsLaidOut(p, s[0]);
      TextIsLaidOut(p1, s[1..]);
      LaidOutAfter(p, p1, TypeAll(p, s), s[0], s[1..]);
      assert [s[0]] + s[1..] == s;
    }
  }

  /** A line feed goes to the beginning of a new, blank row. */
  lemma NewlineStarts(p: Page)
    requires PageOk(p)
    ensures var p' := Type(p, NEWLINE);
            && Position(p') == WIDTH * p.rows && p'.col == 0 && p'.rows == p.rows + 1 && p.cells <= p'.cells
            && forall k :: WIDTH * p.rows <= k < |p'.cells| ==> p'.cells[k] == BLANK
  {
  }

  /** A backspace takes back a character in the same row; at the beginning of a row it blanks the cell there. */
  lemma BackspaceErases(p: Page, c: Byte)
    requires PageOk(p) && Printable(c)
    ensures var erased := p.(cells := p.cells[Position(p) := BLANK]);
            && (p.col + 1 < WIDTH ==> Type(Type(p, c), BACKSPACE) == erased)
            && (p.col == 0 ==> Type(p, BACKSPACE) == erased)
  {
    var typed := p.cells[Position(p) := Entry(c)];
    assert typed[Position(p) := BLANK] == p.cells[Position(p) := BLANK];
  }

  // ---------- The window ----------

  /** The first of so many rows that is on the screen. */
  function Top(rows: nat): nat {
    if rows > HEIGHT then rows - HEIGHT else 0
  }

  /** What cell i of the screen shows: the page from its top row on, blank below its last row. */
  function Shown(cells: seq<Cell>, rows: nat, i: nat): Cell {
    if WIDTH * Top(rows) + i < |cells| then cells[WIDTH * Top(rows) + i] else BLANK
  }

  /** The screen shows these rows, with the cursor in the last of them. */
  ghost predicate Shows(buffer: seq<Cell>, row: int, cells: seq<Cell>, rows: nat) {
    && rows >= 1 && |cells| == WIDTH * rows && |buffer| == CELLS && row == rows - 1 - Top(rows)
    && forall i :: 0 <= i < CELLS ==> buffer[i] == Shown(cells, rows, i)
  }

  ghost predicate Window(buffer: seq<Cell>, row: int, col: int, p: Page) {
    PageOk(p) && Shows(buffer, row, p.cells, p.rows) && col == p.col
  }

  /** The cursor is on the screen, and the rows below it are blank. */
  lemma WindowIsClean(buffer: seq<Cell>, row: int, col: int, p: Page)
    requires Window(buffer, row, col, p)
    ensures 0 <= row < HEIGHT && 0 <= col < WIDTH
    ensures forall i :: WIDTH * (row + 1) <= i < CELLS ==> buffer[i] == BLANK
  {
  }

  /** The first n cells are one row up, the others where they were. */
  ghost predicate Moved(b: seq<Cell>, b': seq<Cell>, n: int) {
    && |b| == |b'| == CELLS && 0 <= n <= CELLS - WIDTH
    && (forall i :: 0 <= i < n ==> b'[i] == b[i + WIDTH])
    && (forall i :: n <= i < CELLS ==> b'[i] == b[i])
  }

  lemma MovedStep(b: seq<Cell>, b': seq<Cell>, n: nat)
    requires Moved(b, b', n) && n < CELLS - WIDTH
    ensures Moved(b, b'[n := b'[n + WIDTH]], n + 1)
  {
    assert b'[n + WIDTH] == b[n + WIDTH];
  }

  /** A cell written into the cursor's row on the screen is written into the last row of the page. */
  lemma WriteShows(buffer: seq<Cell>, row: int, cells: seq<Cell>, rows: nat, col: nat, v: Cell)
    requires Shows(buffer, row, cells, rows) && col < WIDTH
    ensures 0 <= row < HEIGHT
    ensures Shows(buffer[row * WIDTH + col := v], row, cells[WIDTH * (rows - 1) + col := v], rows)
  {
  }

  /** A new row comes into the window below, or scrolls the window up. */
  lemma RowShows(buffer: seq<Cell>, row: int, cells: seq<Cell>, rows: nat, buffer': seq<Cell>)
    requires Shows(buffer, row, cells, rows) && |buffer'| == CELLS
    requires if row + 1 < HEIGHT then buffer' == buffer
             else forall i :: 0 <= i < CELLS ==> buffer'[i] == if i < CELLS - WIDTH then buffer[i + WIDTH] else BLANK
    ensures Shows(buffer', if row + 1 < HEIGHT then row + 1 else HEIGHT - 1, cells + BlankRow(), rows + 1)
  {
  }

  class Terminal {
    const buffer: array<Cell>
    var row: nat
    var col: nat
    ghost var page: Page

    /** The screen is the window on the page. */
    ghost predicate Valid()
      reads this, buffer
    {
      buffer.Length == CELLS && row < HEIGHT && col < WIDTH && Window(buffer[..], row, col, page)
    }

    /** The terminal takes the frame buffer as it finds it and clears it. */
    constructor (buffer: array<Cell>)
      requires buffer.Length == CELLS
      modifies buffer
      ensures Valid() && this.buffer == buffer && page == EmptyPage()
    {
      this.buffer := buffer;
      new;
      Clear();
    }

    method Clear()
      requires buffer.Length == CELLS
      modifies this, buffer
      ensures Valid() && page == EmptyPage()
    {
      var y := 0;
      while y < HEIGHT
        invariant 0 <= y <= HEIGHT && forall i :: 0 <= i < WIDTH * y ==> buffer[i] == BLANK
      {
        var x := 0;
        while x < WIDTH
          invariant 0 <= x <= WIDTH && forall i :: 0 <= i < WIDTH * y + x ==> buffer[i] == BLANK
        {
          buffer[y * WIDTH + x] := Entry(SPACE);
          x := x + 1;
        }
        y := y + 1;
      }
      row, col := 0, 0;
      page := EmptyPage();
    }

    /** Moves every row up by one and blanks the last. */
    method Scroll()
      requires buffer.Length == CELLS
      modifies this`row, buffer
      ensures row == HEIGHT - 1
      ensures forall i :: 0 <= i < CELLS ==> buffer[i] == if i < CELLS - WIDTH then old(buffer[i + WIDTH]) else BLANK
    {
      MoveUp();
      var x := 0;
      while x < WIDTH
        invariant 0 <= x <= WIDTH
        invariant forall i :: 0 <= i < CELLS - WIDTH ==> buffer[i] == old(buffer[i + WIDTH])
        invariant forall i :: CELLS - WIDTH <= i < CELLS - WIDTH + x ==> buffer[i] == BLANK
      {
        buffer[(HEIGHT - 1) * WIDTH + x] := Entry(SPACE);
        x := x + 1;
      }
      row := HEIGHT - 1;
    }

    method MoveUp()
      requires buffer.Length == CELLS
      modifies buffer
      ensures forall i :: 0 <= i < CELLS - WIDTH ==> buffer[i] == old(buffer[i + WIDTH])
    {
      var y := 1;
      while y < HEIGHT
        invariant 1 <= y <= HEIGHT && Moved(old(buffer[..]), buffer[..], WIDTH * (y - 1))
      {
        var x := 0;
        while x < WIDTH
          invariant 0 <= x <= WIDTH && Moved(old(buffer[..]), buffer[..], WIDTH * (y - 1) + x)
        {
          MovedStep(old(buffer[..]), buffer[..], WIDTH * (y - 1) + x);
          buffer[(y - 1) * WIDTH + x] := buffer[y * WIDTH + x];
          x := x + 1;
        }
        y := y + 1;
      }
    }

    method PutChar(c: Byte)
      requires Valid()
      modifies this, buffer
      ensures Valid() && page == Type(old(page), c)
    {
      hide Shows;
      ghost var cells, at := page.cells, row;
      if c == NEWLINE {
        col := 0;
        row := row + 1;
      } else if c == BACKSPACE {
        if col > 0 { col := col - 1; }
        WriteShows(buffer[..], row, cells, page.rows, col, Entry(SPACE));
        buffer[row * WIDTH + col] := Entry(SPACE);
        cells := cells[WIDTH * (page.rows - 1) + col := BLANK];
      } else {
        WriteShows(buffer[..], row, cells, page.rows, col, Entry(c));
        buffer[row * WIDTH + col] := Entry(c);
        cells := cells[WIDTH * (page.rows - 1) + col := Entry(c)];
        col := col + 1;
      }
      if col >= WIDTH {
        col := 0;
        row := row + 1;
      }
      ghost var shown, turned := buffer[..], row != at;
      assert Shows(shown, at, cells, page.rows);
      if row >= HEIGHT {
        Scroll();
      }
      if turned { RowShows(shown, at, cells, page.rows, buffer[..]); }
      page := Type(page, c);
    }

    /** Writes a string up to its terminating zero. */
    method Write(s: seq<Byte>)
      requires Valid() && s != [] && s[|s| - 1] == 0 && forall i :: 0 <= i < |s| - 1 ==> s[i] != 0
      modifies this, buffer
      ensures Valid() && page == TypeAll(old(page), s[..|s| - 1])
    {
      var i := 0;
      while s[i] != 0
        invariant 0 <= i < |s| && Valid()
        invariant TypeAll(page, s[i..|s| - 1]) == TypeAll(old(page), s[..|s| - 1])
        decreases |s| - i
      {
        PutChar(s[i]);
        i := i + 1;
      }
    }
  }
}
