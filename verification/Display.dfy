/** The frame buffer: two bytes a cell, written in place. */
module Display {
  import opened Bytes
  import opened ScreenText

  class FrameBuffer {
    const fb: array<Byte>
    var cursor: nat
    var fg: Byte
    var bg: Byte
    var low: Byte                      // the cursor registers of the hardware, 0x0F and 0x0E
    var high: Byte

    /** Between the public operations the hardware cursor is where the cursor is. */
    ghost predicate Valid()
      reads this, fb
    {
      Ready() && high as int * 256 + low as int == cursor
    }

    ghost predicate Ready()
      reads this, fb
    {
      fb.Length == 2 * CELLS && cursor < CELLS
    }

    ghost function Cells(): (c: seq<Cell>)
      reads fb
      requires fb.Length == 2 * CELLS
      ensures |c| == CELLS && forall i | 0 <= i < CELLS :: c[i] == Cell(fb[2 * i], fb[2 * i + 1])
    {
      seq(CELLS, i requires 0 <= i < CELLS reads fb => Cell(fb[2 * i], fb[2 * i + 1]))
    }

    ghost function View(): Screen
      reads this, fb
      requires fb.Length == 2 * CELLS
    {
      Screen(Cells(), cursor)
    }

    /** `fb_init` */
    constructor ()
      ensures Valid() && fresh(fb)
      ensures fg == 7 && bg == 0 && cursor == 0 && forall i | 0 <= i < CELLS :: Cells()[i] == Blank(Attr(7, 0))
    {
      fb := new Byte[2 * CELLS](i => 0);
      cursor, fg, bg, low, high := 0, 7, 0, 0, 0;
      new;
      Clear();
    }

    /** `fb_set_cursor` */
    method SetCursor(position: nat)
      modifies this`low, this`high
      ensures high as int * 256 + low as int == if position < CELLS then position else CELLS - 1
    {
      var p := if position >= CELLS then CELLS - 1 else position;
      low := (p % 256) as Byte;
      high := (p / 256) as Byte;
    }

    /** `fb_set_color` */
    method SetColor(foreground: Byte, background: Byte)
      modifies this`fg, this`bg
      ensures fg == foreground % 16 && bg == background % 16
    {
      fg, bg := foreground % 16, background % 16;
    }

    /** `fb_write_cell`: nothing happens off the screen. */
    method WriteCell(pos: nat, c: Byte)
      requires fb.Length == 2 * CELLS
      modifies fb
      ensures Cells() == if pos < CELLS then old(Cells())[pos := Cell(c, Attr(fg, bg))] else old(Cells())
      ensures pos < CELLS ==>
                fb[2 * pos] == c && fb[2 * pos + 1] / 16 == fg % 16 && fb[2 * pos + 1] % 16 == bg % 16
    {
      if pos < CELLS {
        fb[2 * pos] := c;
        fb[2 * pos + 1] := fg % 16 * 16 + bg % 16;
      }
    }

    /** Blank the cells from `from` to `to`, as `fb_clear` and `fb_clear_line` do. */
    method Blanken(from: nat, to: nat)
      requires fb.Length == 2 * CELLS && from <= to <= CELLS
      modifies fb
      ensures forall i | 0 <= i < CELLS :: Cells()[i] == if from <= i < to then Blank(Attr(fg, bg)) else old(Cells())[i]
    {
      var pos := from;
      while pos < to
        invariant from <= pos <= to
        invariant forall i | 0 <= i < CELLS ::
            Cells()[i] == if from <= i < pos then Blank(Attr(fg, bg)) else old(Cells())[i]
      {
        WriteCell(pos, SPACE);
        pos := pos + 1;
      }
    }

    /** `fb_clear` */
    method Clear()
      requires fb.Length == 2 * CELLS
      modifies this`cursor, this`low, this`high, fb
      ensures cursor == 0 && Valid() && forall i | 0 <= i < CELLS :: Cells()[i] == Blank(Attr(fg, bg))
    {
      Blanken(0, CELLS);
      cursor := 0;
      SetCursor(0);
    }

    /** The copying loop of `fb_scroll`, byte by byte and in place. */
    method CopyUp()
      requires fb.Length == 2 * CELLS
      modifies fb
      ensures forall b | 0 <= b < 2 * (CELLS - COLUMNS) :: fb[b] == old(fb[b + 2 * COLUMNS])
    {
      var i := COLUMNS;
      while i < CELLS
        invariant COLUMNS <= i <= CELLS
        invariant forall b | 0 <= b < 2 * (i - COLUMNS) :: fb[b] == old(fb[b + 2 * COLUMNS])
        invariant forall b | 2 * (i - COLUMNS) <= b < 2 * CELLS :: fb[b] == old(fb[b])
      {
        fb[(i - COLUMNS) * 2] := fb[i * 2];
        fb[(i - COLUMNS) * 2 + 1] := fb[i * 2 + 1];
        i := i + 1;
      }
    }

    /** `fb_scroll` */
    method Scroll()
      requires fb.Length == 2 * CELLS
      modifies fb
      ensures Cells() == Scrolled(old(Cells()), Attr(fg, bg))
    {
      CopyUp();
      assert forall i | 0 <= i < CELLS - COLUMNS :: Cells()[i] == old(Cells())[i + COLUMNS];
      Blanken(24 * COLUMNS, CELLS);
    }

    /** The four blanks of a tab. */
    method Tab()
      requires Ready()
      modifies this`cursor, fb
      ensures cursor == old(cursor) + 4 && Cells() == Tabbed(old(Cells()), old(cursor), Attr(fg, bg))
    {
      var j := 0;
      while j < 4
        invariant j <= 4 && cursor == old(cursor) + j
        invariant forall i | 0 <= i < CELLS ::
                    Cells()[i] == if old(cursor) <= i < old(cursor) + j then Blank(Attr(fg, bg)) else old(Cells())[i]
      {
        WriteCell(cursor, SPACE);
        cursor := cursor + 1;
        j := j + 1;
      }
    }

    /** The body of the loop of `fb_write`. */
    method Put(c: Byte)
      requires Ready()
      modifies this`cursor, fb
      ensures Ready() && View() == PutChar(old(View()), c, Attr(fg, bg))
    {
      if c == NEWLINE {
        cursor := (cursor + COLUMNS) / COLUMNS * COLUMNS;
      } else if c == TAB {
        Tab();
      } else if c == RETURN {
        cursor := cursor / COLUMNS * COLUMNS;
      } else if c == BACKSPACE {
        if cursor > 0 {
          cursor := cursor - 1;
          WriteCell(cursor, SPACE);
        }
      } else {
        WriteCell(cursor, c);
        cursor := cursor + 1;
      }
      if cursor >= CELLS {
        Scroll();
        cursor := CELLS - COLUMNS;
      }
    }

    /** `fb_write`; a null buffer is an empty one. */
    method Write(buf: seq<Byte>) returns (n: nat)
      requires Valid()
      modifies this`cursor, this`low, this`high, fb
      ensures Valid() && n == |buf| && View() == PutAll(old(View()), buf, Attr(fg, bg))
    {
      if |buf| == 0 { return 0; }
      var i := 0;
      while i < |buf|
        invariant i <= |buf| && Ready() && View() == PutAll(old(View()), buf[..i], Attr(fg, bg))
      {
        Put(buf[i]);
        i := i + 1;
        assert buf[..i][..i - 1] == buf[..i - 1];
      }
      assert buf[..|buf|] == buf;
      SetCursor(cursor);
      n := |buf|;
    }

    /** `fb_puts`, which writes the terminating zero as well. */
    method Puts(str: seq<Byte>)
      requires Valid()
      modifies this`cursor, this`low, this`high, fb
      ensures Valid() && View() == PutChar(PutAll(old(View()), str, Attr(fg, bg)), 0, Attr(fg, bg))
    {
      var _ := Write(str + [0]);
      assert (str + [0])[..|str|] == str;
    }
  }
}
