/** `VGATextMode` (src/drivers/vga.cpp): the 80x25 text screen. Its video memory is the last 2000
  cells of the tape of module Terminal. */
module Screen {
  import opened Bytes
  import opened Terminal
  import opened TerminalCells

  class TextMode {
    const videoMemory: array<uint16>
    var cursorX: byte
    var cursorY: byte
    var foregroundColor: Color
    var backgroundColor: Color
    ghost var tape: Tape    // everything ever shown

    ghost predicate Valid()
      reads this, videoMemory
    {
      && tape.Valid()
      && cursorX < WIDTH && cursorY < HEIGHT
      && videoMemory.Length == WIDTH * HEIGHT
      && videoMemory[..] == tape.Window()
      && WIDTH * cursorY + cursorX == tape.pos - tape.Top()
      && foregroundColor == tape.fg && backgroundColor == tape.bg
    }

    constructor (videoMemory: array<uint16>)
      requires videoMemory.Length == WIDTH * HEIGHT
      modifies videoMemory
      ensures Valid() && this.videoMemory == videoMemory
      ensures tape == Initial()
    {
      this.videoMemory := videoMemory;
      cursorX, cursorY := 0, 0;
      foregroundColor, backgroundColor := 15, 0;
      tape := Initial();
      new;
      FillBlank();
    }

    function Blank(): uint16
      reads this
    {
      Cell(foregroundColor, backgroundColor, SPACE)
    }

    /** The row and column loops of Clear. */
    method FillBlank()
      requires videoMemory.Length == WIDTH * HEIGHT
      modifies videoMemory
      ensures videoMemory[..] == Blanks(CELLS, Blank())
    {
      var blank := Blank();
      for y := 0 to HEIGHT
        invariant forall p :: 0 <= p < WIDTH * y ==> videoMemory[p] == blank
        modifies videoMemory
      {
        for x := 0 to WIDTH
          invariant forall p :: 0 <= p < WIDTH * y + x ==> videoMemory[p] == blank
          modifies videoMemory
        {
          videoMemory[WIDTH * y + x] := blank;
        }
      }
    }

    method Clear()
      requires Valid()
      modifies this`cursorX, this`cursorY, this`tape, videoMemory
      ensures Valid() && tape == Step(old(tape), Erase)
      ensures cursorX == 0 && cursorY == 0
      ensures forall p :: 0 <= p < 2000 ==> Shows(videoMemory[p], 32, foregroundColor, backgroundColor)
    {
      FillBlank();
      cursorX := 0;
      cursorY := 0;
      tape := tape.Clear();
      assert tape.Window() == Blanks(CELLS, tape.Blank());
      CellShows(foregroundColor, backgroundColor, SPACE);
    }

    method SetColor(foreground: Color, background: Color)
      requires Valid()
      modifies this`foregroundColor, this`backgroundColor, this`tape
      ensures Valid() && tape == Step(old(tape), Colors(foreground, background))
    {
      foregroundColor := foreground;
      backgroundColor := background;
      tape := tape.(fg := foreground, bg := background);
    }

    method SetCursorPosition(x: byte, y: byte)
      requires Valid()
      modifies this`cursorX, this`cursorY, this`tape
      ensures Valid() && tape == Step(old(tape), Cursor(x, y))
      ensures if x < 80 && y < 25 then cursorX == x && cursorY == y else cursorX == old(cursorX) && cursorY == old(cursorY)
    {
      StepValid(tape, Cursor(x, y));
      tape := tape.SetCursor(x, y);
      if x < WIDTH && y < HEIGHT {
        cursorX := x;
        cursorY := y;
      }
    }

    /** Moves all rows up by one and blanks the last one. */
    method Scroll()
      requires videoMemory.Length == WIDTH * HEIGHT
      modifies this`cursorY, videoMemory
      ensures videoMemory[..] == old(videoMemory[WIDTH..]) + Blanks(WIDTH, Blank())
      ensures cursorY == HEIGHT - 1
    {
      ghost var m := videoMemory[..];
      var blank := Blank();
      for y := 0 to HEIGHT - 1
        invariant forall p :: 0 <= p < WIDTH * y ==> videoMemory[p] == m[p + WIDTH]
        invariant forall p :: WIDTH * y <= p < CELLS ==> videoMemory[p] == m[p]
        modifies videoMemory
      {
        for x := 0 to WIDTH
          invariant forall p :: 0 <= p < WIDTH * y + x ==> videoMemory[p] == m[p + WIDTH]
          invariant forall p :: WIDTH * y + x <= p < CELLS ==> videoMemory[p] == m[p]
          modifies videoMemory
        {
          videoMemory[WIDTH * y + x] := videoMemory[WIDTH * (y + 1) + x];
        }
      }
      for x := 0 to WIDTH
        invariant forall p :: 0 <= p < CELLS - WIDTH ==> videoMemory[p] == m[p + WIDTH]
        invariant forall p :: CELLS - WIDTH <= p < CELLS - WIDTH + x ==> videoMemory[p] == blank
        modifies videoMemory
      {
        videoMemory[WIDTH * (HEIGHT - 1) + x] := blank;
      }
      cursorY := HEIGHT - 1;
    }

    method PutChar(c: byte)
      requires Valid()
      modifies this`cursorX, this`cursorY, this`tape, videoMemory
      ensures Valid() && tape == Step(old(tape), Char(c))
    {
      assert tape.MoveTo(tape.pos) == tape;
      hide Cell, Tape.MoveTo, Tape.Window;
      ghost var p := tape.pos;
      match c {
        case 10 | 13 | 9 =>
          p := MoveCursor(c);
        case 8 =>
          RowArithmetic(tape.pos, tape.Top(), cursorX, cursorY);
          if cursorX > 0 {
            cursorX := cursorX - 1;
            p := p - 1;
            Store(p, Blank());
          }
        case _ =>
          Store(p, Cell(foregroundColor, backgroundColor, c));
          cursorX := cursorX + 1;
          p := p + 1;
      }
      WrapAndScroll(p);
    }

    /** Newline, return and tab. */
    method MoveCursor(c: byte) returns (ghost p: nat)
      requires Valid() && Control(c)
      modifies this`cursorX, this`cursorY
      ensures Step(tape, Char(c)) == tape.MoveTo(p)
      ensures cursorX <= WIDTH && WIDTH * cursorY + cursorX == p - tape.Top() <= CELLS
    {
      RowArithmetic(tape.pos, tape.Top(), cursorX, cursorY);
      hide Tape.MoveTo, Tape.Window;
      p := tape.pos - cursorX;
      if c == NEWLINE {
        p := p + WIDTH;
        cursorX := 0;
        cursorY := cursorY + 1;
      } else if c == RETURN {
        cursorX := 0;
      } else {
        cursorX := (cursorX + 4) / 4 * 4;
        p := p + cursorX;
      }
    }

    /** Stores a cell at the cursor, which is position p of the tape. */
    method Store(ghost p: nat, cell: uint16)
      requires tape.Valid() && videoMemory.Length == WIDTH * HEIGHT && videoMemory[..] == tape.Window()
      requires cursorX < WIDTH && cursorY < HEIGHT && WIDTH * cursorY + cursorX == p - tape.Top()
      modifies this`tape, videoMemory
      ensures p < |old(tape).cells| && tape == old(tape).Write(p, cell) && tape.Valid()
      ensures videoMemory[..] == tape.Window()
    {
      videoMemory[WIDTH * cursorY + cursorX] := cell;
      tape := tape.Write(p, cell);
    }

    /** Cursor column and row, and tab stops, on the tape. */
    lemma RowArithmetic(pos: nat, top: nat, x: nat, y: nat)
      requires top % WIDTH == 0 && x < WIDTH && pos == top + WIDTH * y + x
      ensures pos % WIDTH == x && pos / WIDTH * WIDTH == pos - x && (pos / WIDTH + 1) * WIDTH == pos - x + WIDTH
      ensures (pos / 4 + 1) * 4 == pos - x + (x + 4) / 4 * 4 && (x + 4) / 4 * 4 <= WIDTH
    {
      assert pos == WIDTH * (top / WIDTH + y) + x;
    }

    /** The two tests at the end of PutChar: wrap at the end of a row, and scroll, at most once. */
    method WrapAndScroll(ghost p: nat)
      requires tape.Valid() && videoMemory.Length == WIDTH * HEIGHT && videoMemory[..] == tape.Window()
      requires cursorX <= WIDTH && WIDTH * cursorY + cursorX == p - tape.Top() <= CELLS
      requires foregroundColor == tape.fg && backgroundColor == tape.bg
      modifies this`cursorX, this`cursorY, this`tape, videoMemory
      ensures Valid() && tape == old(tape).MoveTo(p)
    {
      if cursorX >= WIDTH {
        cursorX := 0;
        cursorY := cursorY + 1;
      }
      ghost var t := tape;
      tape := tape.MoveTo(p);
      if cursorY >= HEIGHT {
        Scroll();
        assert tape.Window() == t.Window()[WIDTH..] + Blanks(WIDTH, t.Blank());
      }
    }

    /** Prints a C string, given without its NUL. */
    method Print(str: seq<byte>)
      requires Valid() && 0 !in str
      modifies this`cursorX, this`cursorY, this`tape, videoMemory
      ensures Valid() && tape == Run(old(tape), Chars(str))
    {
      ghost var t := tape;
      var i := 0;
      while i < |str|
        invariant i <= |str| && Valid()
        invariant tape == Run(t, Chars(str[..i]))
      {
        RunAppend(t, Chars(str[..i]), [Char(str[i])]);
        assert Chars(str[..i + 1]) == Chars(str[..i]) + [Char(str[i])];
        PutChar(str[i]);
        i := i + 1;
      }
      assert str[..|str|] == str;
    }
  }
}
