/** The text screen as a window on an unbounded text. */
module ScreenText {
  import opened Bytes

  const COLUMNS: nat := 80
  const CELLS: nat := 2000

  const BACKSPACE: Byte := 8
  const TAB: Byte := 9
  const NEWLINE: Byte := 10
  const RETURN: Byte := 13
  const SPACE: Byte := 32

  datatype Cell = Cell(ch: Byte, attr: Byte)

  /** The attribute byte of two colours. */
  function Attr(fg: Byte, bg: Byte): Byte
  {
    fg % 16 * 16 + bg % 16
  }

  /** The foreground is in the upper four bits and the background in the lower ones. */
  lemma AttrNibbles(fg: Byte, bg: Byte)
    ensures Attr(fg, bg) / 16 == fg % 16 && Attr(fg, bg) % 16 == bg % 16
  {
  }

  function Blank(attr: Byte): Cell
  {
    Cell(SPACE, attr)
  }

  function BlankRow(attr: Byte): (r: seq<Cell>)
    ensures |r| == COLUMNS && forall i | 0 <= i < COLUMNS :: r[i] == Blank(attr)
  {
    seq(COLUMNS, i => Blank(attr))
  }

  // ----- the screen

  /** The 25 rows of cells, one after the other, and the cursor. */
  datatype Screen = Screen(cells: seq<Cell>, cursor: nat)

  ghost predicate Ok(s: Screen)
  {
    |s.cells| == CELLS && s.cursor < CELLS
  }

  /** Rows 1 to 24 move up by one, and row 24 becomes blank. */
  function Scrolled(cells: seq<Cell>, attr: Byte): (r: seq<Cell>)
    requires |cells| == CELLS
    ensures |r| == CELLS
  {
    cells[COLUMNS..] + BlankRow(attr)
  }

  /** Four cells, those of them that are on the screen, become blank. */
  function Tabbed(cells: seq<Cell>, cursor: nat, attr: Byte): (r: seq<Cell>)
    requires |cells| == CELLS
    ensures |r| == CELLS && forall i | 0 <= i < CELLS ::
        r[i] == if cursor <= i < cursor + 4 then Blank(attr) else cells[i]
  {
    seq(CELLS, i requires 0 <= i < CELLS => if cursor <= i < cursor + 4 then Blank(attr) else cells[i])
  }

  /** The special characters of `fb_write`, before the check for the end of the screen. */
  function Typed(s: Screen, c: Byte, attr: Byte): (t: Screen)
    requires Ok(s)
    ensures |t.cells| == CELLS && t.cursor < CELLS + 4
  {
    if c == NEWLINE then s.(cursor := (s.cursor + COLUMNS) / COLUMNS * COLUMNS)
    else if c == TAB then Screen(Tabbed(s.cells, s.cursor, attr), s.cursor + 4)
    else if c == RETURN then s.(cursor := s.cursor / COLUMNS * COLUMNS)
    else if c == BACKSPACE then
      if s.cursor > 0 then Screen(s.cells[s.cursor - 1 := Blank(attr)], s.cursor - 1) else s
    else Screen(s.cells[s.cursor := Cell(c, attr)], s.cursor + 1)
  }

  function PutChar(s: Screen, c: Byte, attr: Byte): (t: Screen)
    requires Ok(s)
    ensures Ok(t)
  {
    var t := Typed(s, c, attr);
    if t.cursor >= CELLS then Screen(Scrolled(t.cells, attr), CELLS - COLUMNS) else t
  }

  /** After every character of every stream the cursor is on the screen. */
  function PutAll(s: Screen, buf: seq<Byte>, attr: Byte): (t: Screen)
    requires Ok(s)
    ensures Ok(t)
  {
    if buf == [] then s else PutChar(PutAll(s, buf[..|buf| - 1], attr), buf[|buf| - 1], attr)
  }

  /** The control characters by their codes, where the screen does not scroll: backspace, newline and carriage
      return, and any character that is none of them, nor a tab. */
  lemma Controls(s: Screen, c: Byte, attr: Byte)
    requires |s.cells| == 2000 && s.cursor < 2000
    ensures PutChar(s, 8, attr) == if s.cursor == 0 then s else
                                     Screen(s.cells[s.cursor - 1 := Cell(32, attr)], s.cursor - 1)
    ensures s.cursor < 1920 ==> PutChar(s, 10, attr) == Screen(s.cells, s.cursor - s.cursor % 80 + 80)
    ensures PutChar(s, 13, attr) == Screen(s.cells, s.cursor - s.cursor % 80)
    ensures c !in {8, 9, 10, 13} && s.cursor < 1999 ==>
              PutChar(s, c, attr) == Screen(s.cells[s.cursor := Cell(c, attr)], s.cursor + 1)
  {
  }

  /** And where it does: a newline in the last row moves all rows up by one and leaves a blank last row. */
  lemma LastRow(s: Screen, attr: Byte)
    requires |s.cells| == 2000 && 1920 <= s.cursor < 2000
    ensures var t := PutChar(s, 10, attr);
            && |t.cells| == 2000 && t.cursor == 1920
            && (forall i | 0 <= i < 1920 :: t.cells[i] == s.cells[i + 80])
            && (forall i | 1920 <= i < 2000 :: t.cells[i] == Cell(32, attr))
  {
  }

  // ----- the text

  /** All rows ever begun, one after the other, and the absolute position of the cursor. */
  datatype Text = Text(cells: seq<Cell>, rows: nat, at: nat)

  /** The cursor is in the last 25 rows. */
  ghost predicate WellFormed(x: Text)
  {
    x.rows >= 25 && |x.cells| == COLUMNS * x.rows && |x.cells| - CELLS <= x.at < |x.cells|
  }

  /** A row is begun when the cursor leaves the last one. */
  function Grow(x: Text, attr: Byte): Text
  {
    if x.at < |x.cells| then x else x.(cells := x.cells + BlankRow(attr), rows := x.rows + 1)
  }

  /** The meaning of a character without a window, except that a backspace stops at its top. */
  function WriteChar(x: Text, c: Byte, attr: Byte): (y: Text)
    requires WellFormed(x)
    ensures WellFormed(y)
  {
    if c == NEWLINE then
      NextRow(x.at, x.rows);
      Grow(x.(at := x.at / COLUMNS * COLUMNS + COLUMNS), attr)
    else if c == RETURN then
      RowStart(x.at, x.rows - 25);
      x.(at := x.at / COLUMNS * COLUMNS)
    else if c == BACKSPACE then
      if x.at > |x.cells| - CELLS then x.(cells := x.cells[x.at - 1 := Blank(attr)], at := x.at - 1) else x
    else Grow(x.(cells := x.cells[x.at := Cell(c, attr)], at := x.at + 1), attr)
  }

  /** The meaning of any character: a tab is four spaces. */
  function Write(x: Text, c: Byte, attr: Byte): (y: Text)
    requires WellFormed(x)
    ensures WellFormed(y)
  {
    if c == TAB then
      WriteChar(WriteChar(WriteChar(WriteChar(x, SPACE, attr), SPACE, attr), SPACE, attr), SPACE, attr)
    else WriteChar(x, c, attr)
  }

  function WriteAll(x: Text, buf: seq<Byte>, attr: Byte): (y: Text)
    requires WellFormed(x)
    ensures WellFormed(y)
  {
    if buf == [] then x else Write(WriteAll(x, buf[..|buf| - 1], attr), buf[|buf| - 1], attr)
  }

  /** The last 25 rows. */
  function Window(x: Text): Screen
    requires WellFormed(x)
  {
    Screen(x.cells[|x.cells| - CELLS..], x.at - (|x.cells| - CELLS))
  }

  lemma NextRow(a: nat, rows: nat)
    requires a < COLUMNS * rows
    ensures a < a / COLUMNS * COLUMNS + COLUMNS <= COLUMNS * rows
  {
  }

  lemma RowStart(a: nat, top: nat)
    requires COLUMNS * top <= a
    ensures COLUMNS * top <= a / COLUMNS * COLUMNS <= a
    ensures a / COLUMNS * COLUMNS - COLUMNS * top == (a - COLUMNS * top) / COLUMNS * COLUMNS
    ensures (a - COLUMNS * top + COLUMNS) / COLUMNS * COLUMNS == (a - COLUMNS * top) / COLUMNS * COLUMNS + COLUMNS
  {
  }

  lemma NewlineRefines(x: Text, attr: Byte)
    requires WellFormed(x)
    ensures Window(WriteChar(x, NEWLINE, attr)) == PutChar(Window(x), NEWLINE, attr)
  {
    RowStart(x.at, x.rows - 25);
    NextRow(x.at, x.rows);
    var y := WriteChar(x, NEWLINE, attr);
    assert Window(y).cells == PutChar(Window(x), NEWLINE, attr).cells;
  }

  lemma BackspaceRefines(x: Text, attr: Byte)
    requires WellFormed(x)
    ensures Window(WriteChar(x, BACKSPACE, attr)) == PutChar(Window(x), BACKSPACE, attr)
  {
    var y := WriteChar(x, BACKSPACE, attr);
    assert Window(y).cells == PutChar(Window(x), BACKSPACE, attr).cells;
  }

  lemma GlyphRefines(x: Text, c: Byte, attr: Byte)
    requires WellFormed(x) && c !in {NEWLINE, TAB, RETURN, BACKSPACE}
    ensures Window(WriteChar(x, c, attr)) == PutChar(Window(x), c, attr)
  {
    var y := WriteChar(x, c, attr);
    assert Window(y).cells == PutChar(Window(x), c, attr).cells;
  }

  /** One character other than a tab. */
  lemma CharRefines(x: Text, c: Byte, attr: Byte)
    requires WellFormed(x) && c != TAB
    ensures Window(WriteChar(x, c, attr)) == PutChar(Window(x), c, attr)
  {
    if c == NEWLINE {
      NewlineRefines(x, attr);
    } else if c == RETURN {
      RowStart(x.at, x.rows - 25);
    } else if c == BACKSPACE {
      BackspaceRefines(x, attr);
    } else {
      GlyphRefines(x, c, attr);
    }
  }

  /** A tab is four spaces on the screen too, except that it is cut off where the fourth would go past
      the end of the screen: then, and only then, the cursor ends up elsewhere. */
  lemma TabIsFourSpaces(s: Screen, attr: Byte)
    requires Ok(s)
    ensures PutChar(s, TAB, attr)
            == PutChar(PutChar(PutChar(PutChar(s, SPACE, attr), SPACE, attr), SPACE, attr), SPACE, attr)
            <==> s.cursor <= CELLS - 4
  {
    if s.cursor <= CELLS - 4 {
      var i, b := s.cursor, Blank(attr);
      var spaces := s.cells[i := b][i + 1 := b][i + 2 := b][i + 3 := b];
      assert Tabbed(s.cells, s.cursor, attr) == spaces;
    }
  }

  /** One character of any kind: the screen refines the text exactly when no tab is cut off. */
  lemma WriteRefines(x: Text, c: Byte, attr: Byte)
    requires WellFormed(x)
    ensures Window(Write(x, c, attr)) == PutChar(Window(x), c, attr)
            <==> !(c == TAB && Window(x).cursor > CELLS - 4)
  {
    if c == TAB {
      var x1 := WriteChar(x, SPACE, attr);
      var x2 := WriteChar(x1, SPACE, attr);
      var x3 := WriteChar(x2, SPACE, attr);
      CharRefines(x, SPACE, attr);
      CharRefines(x1, SPACE, attr);
      CharRefines(x2, SPACE, attr);
      CharRefines(x3, SPACE, attr);
      TabIsFourSpaces(Window(x), attr);
    } else {
      CharRefines(x, c, attr);
    }
  }

  /** No tab of the stream is cut off. */
  ghost predicate TabsFit(s: Screen, buf: seq<Byte>, attr: Byte)
    requires Ok(s)
  {
    buf == []
    || (TabsFit(s, buf[..|buf| - 1], attr)
        && (buf[|buf| - 1] == TAB ==> PutAll(s, buf[..|buf| - 1], attr).cursor <= CELLS - 4))
  }

  lemma {:induction false} TabFree(s: Screen, buf: seq<Byte>, attr: Byte)
    requires Ok(s) && TAB !in buf
    ensures TabsFit(s, buf, attr)
  {
    if buf != [] { TabFree(s, buf[..|buf| - 1], attr); }
  }

  /** For every stream in which no tab is cut off, and so for every stream without tabs, the screen
      shows the last 25 rows of the text. */
  lemma {:induction false} StreamRefines(x: Text, buf: seq<Byte>, attr: Byte)
    requires WellFormed(x) && TabsFit(Window(x), buf, attr)
    ensures Window(WriteAll(x, buf, attr)) == PutAll(Window(x), buf, attr)
  {
    if buf != [] {
      StreamRefines(x, buf[..|buf| - 1], attr);
      WriteRefines(WriteAll(x, buf[..|buf| - 1], attr), buf[|buf| - 1], attr);
    }
  }

  /** Two writes one after the other are one. */
  lemma {:induction false} PutAppend(s: Screen, a: seq<Byte>, b: seq<Byte>, attr: Byte)
    requires Ok(s)
    ensures PutAll(PutAll(s, a, attr), b, attr) == PutAll(s, a + b, attr)
  {
    if b == [] {
      assert a + b == a;
    } else {
      var n := |b| - 1;
      PutAppend(s, a, b[..n], attr);
      assert (a + b)[..|a + b| - 1] == a + b[..n];
    }
  }
}
