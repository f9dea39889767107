/** What a text terminal means: an endless tape of cells, read in rows of 80.

  The position on the tape is a single number. Wrapping at the end of a row, scrolling, and the
  two cursor coordinates of the screen do not occur here. Class `TextMode` (module Screen) shows
  that the 80x25 buffer is always the last 2000 cells of the tape. */
module Terminal {
  import opened Bytes

  const WIDTH := 80
  const HEIGHT := 25
  const CELLS := 2000

  type Color = x: int | 0 <= x < 16

  const BACKSPACE: byte := 8
  const TAB: byte := 9
  const NEWLINE: byte := 10
  const RETURN: byte := 13
  const SPACE: byte := 32

  /** A screen cell: background, foreground and character. Characters from 128 on are negative in
      the source and their sign bits overwrite both colours. */
  function Cell(fg: Color, bg: Color, c: byte): uint16 {
    if c < 128 then bg * 0x1000 as int + fg * 0x100 as int + c else 0xFF00 + c as int
  }

  /** n equal cells. */
  function Blanks(n: nat, cell: uint16): (r: seq<uint16>)
    ensures |r| == n && forall i :: 0 <= i < n ==> r[i] == cell
  {
    seq(n, _ => cell)
  }

  datatype Tape = Tape(cells: seq<uint16>, pos: nat, fg: Color, bg: Color) {
    function Blank(): uint16 {
      Cell(fg, bg, SPACE)
    }

    /** First cell of the visible part. */
    function Top(): int {
      |cells| - CELLS
    }

    ghost predicate Valid() {
      |cells| % WIDTH == 0 && 0 <= Top() <= pos < |cells|
    }

    /** The visible part. */
    function Window(): seq<uint16>
      requires |cells| >= CELLS
    {
      cells[Top()..]
    }

    /** Moving to a position right of the window adds a blank row. */
    function MoveTo(p: nat): Tape {
      if p < |cells| then this.(pos := p)
      else this.(pos := p, cells := cells + Blanks(WIDTH, Blank()))
    }

    function Write(p: nat, cell: uint16): Tape
      requires p < |cells|
    {
      this.(cells := cells[p := cell])
    }

    function Put(c: byte): Tape
      requires Valid()
    {
      if c == NEWLINE then MoveTo((pos / WIDTH + 1) * WIDTH)
      else if c == RETURN then MoveTo(pos / WIDTH * WIDTH)
      else if c == TAB then MoveTo((pos / 4 + 1) * 4)
      else if c == BACKSPACE then if pos % WIDTH > 0 then Write(pos - 1, Blank()).MoveTo(pos - 1) else this
      else Write(pos, Cell(fg, bg, c)).MoveTo(pos + 1)
    }

    /** Erasing the visible part. */
    function Clear(): Tape
      requires |cells| >= CELLS
    {
      this.(cells := cells[..Top()] + Blanks(CELLS, Blank()), pos := Top())
    }

    function SetCursor(x: nat, y: nat): Tape
      requires |cells| >= CELLS
    {
      if x < WIDTH && y < HEIGHT then this.(pos := Top() + WIDTH * y + x) else this
    }
  }

  /** The blank terminal, white on black. */
  function Initial(): (t: Tape)
    ensures t.Valid() && t.Top() == 0 && t.Window() == Blanks(CELLS, t.Blank())
  {
    var cells := Blanks(CELLS, Cell(15, 0, SPACE));
    assert cells[0..] == cells;
    Tape(cells, 0, 15, 0)
  }

  // Runs

  datatype Event = Char(c: byte) | Colors(fg: Color, bg: Color) | Cursor(x: byte, y: byte) | Erase

  function Step(t: Tape, ev: Event): Tape
    requires t.Valid()
  {
    match ev
    case Char(c) => t.Put(c)
    case Colors(fg, bg) => t.(fg := fg, bg := bg)
    case Cursor(x, y) => t.SetCursor(x, y)
    case Erase => t.Clear()
  }

  lemma MoveToValid(t: Tape, p: nat)
    requires t.Valid() && t.Top() <= p <= |t.cells|
    ensures var r := t.MoveTo(p);
      && r.Valid() && (r.Top() == t.Top() || r.Top() == t.Top() + WIDTH)
      && r.cells[..t.Top()] == t.cells[..t.Top()]
  {
  }

  /** Where the control characters move: never out of the window, and at most just behind it. */
  lemma RowBounds(top: nat, pos: nat, end: nat)
    requires top % 80 == 0 && end % 80 == 0 && top <= pos < end
    ensures top <= pos / 80 * 80 <= pos
    ensures pos < (pos / 4 + 1) * 4 <= (pos / 80 + 1) * 80 <= end
  {
    var row, rows, first := pos / 80, end / 80, top / 80;
    assert end == 80 * rows && top == 80 * first;
    assert 80 * row <= pos < 80 * row + 80;
    assert first <= row < rows;
    assert pos / 4 < 20 * row + 20;
  }

  lemma WriteMoveValid(t: Tape, at: nat, cell: uint16, p: nat)
    requires t.Valid() && t.Top() <= at < |t.cells| && t.Top() <= p <= |t.cells|
    ensures var r := t.Write(at, cell).MoveTo(p);
      && r.Valid() && (r.Top() == t.Top() || r.Top() == t.Top() + WIDTH)
      && r.cells[..t.Top()] == t.cells[..t.Top()]
  {
    MoveToValid(t, p);
  }

  predicate Control(c: byte) {
    c == NEWLINE || c == RETURN || c == TAB
  }

  lemma ControlValid(t: Tape, c: byte)
    requires t.Valid() && Control(c)
    ensures var r := t.Put(c);
      && r.Valid() && (r.Top() == t.Top() || r.Top() == t.Top() + WIDTH)
      && r.cells[..t.Top()] == t.cells[..t.Top()]
  {
    RowBounds(t.Top(), t.pos, |t.cells|);
    hide Tape.MoveTo, Cell;
    MoveToValid(t, if c == NEWLINE then (t.pos / WIDTH + 1) * WIDTH else if c == RETURN then t.pos / WIDTH * WIDTH else (t.pos / 4 + 1) * 4);
  }

  lemma PutValid(t: Tape, c: byte)
    requires t.Valid()
    ensures var r := t.Put(c);
      && r.Valid() && (r.Top() == t.Top() || r.Top() == t.Top() + WIDTH)
      && r.cells[..t.Top()] == t.cells[..t.Top()]
  {
    if Control(c) {
      ControlValid(t, c);
    } else {
      hide Tape.Write, Tape.MoveTo, Tape.Blank, Cell;
      if c != BACKSPACE {
        WriteMoveValid(t, t.pos, Cell(t.fg, t.bg, c), t.pos + 1);
      } else if t.pos % WIDTH > 0 {
        LeftNeighbour(t);
        WriteMoveValid(t, t.pos - 1, t.Blank(), t.pos - 1);
      }
    }
  }

  /** The first cell of the window starts a row. */
  lemma LeftNeighbour(t: Tape)
    requires t.Valid() && t.pos % WIDTH > 0
    ensures t.Top() <= t.pos - 1
  {
  }

  /** Every event keeps the tape valid, and moves the window by at most one row; what has left the
      window never changes again. */
  lemma StepValid(t: Tape, ev: Event)
    requires t.Valid()
    ensures Step(t, ev).Valid()
    ensures Step(t, ev).Top() == t.Top() || Step(t, ev).Top() == t.Top() + WIDTH
    ensures Step(t, ev).cells[..t.Top()] == t.cells[..t.Top()]
  {
    match ev {
      case Char(c) => PutValid(t, c);
      case Cursor(x, y) => assert y < HEIGHT ==> WIDTH * y <= WIDTH * 24;
      case _ =>
    }
  }

  function Run(t: Tape, evs: seq<Event>): Tape
    requires t.Valid()
    decreases |evs|
  {
    if evs == [] then t else
    StepValid(t, evs[0]);
    Run(Step(t, evs[0]), evs[1..])
  }

  /** Over whole runs: the terminal stays valid, only grows, and its history is frozen. */
  lemma {:induction false} RunValid(t: Tape, evs: seq<Event>)
    requires t.Valid()
    ensures Run(t, evs).Valid()
    ensures t.Top() <= Run(t, evs).Top() <= t.Top() + WIDTH * |evs|
    ensures Run(t, evs).cells[..t.Top()] == t.cells[..t.Top()]
    decreases |evs|
  {
    if evs != [] {
      var u := Step(t, evs[0]);
      StepValid(t, evs[0]);
      RunValid(u, evs[1..]);
      var r := Run(u, evs[1..]);
      assert r.cells[..t.Top()] == r.cells[..u.Top()][..t.Top()] == u.cells[..t.Top()];
    }
  }

  lemma {:induction false} RunAppend(t: Tape, xs: seq<Event>, ys: seq<Event>)
    requires t.Valid()
    ensures Run(t, xs).Valid() && Run(t, xs + ys) == Run(Run(t, xs), ys)
    decreases |xs|
  {
    RunValid(t, xs);
    if xs == [] {
      assert xs + ys == ys;
    } else {
      StepValid(t, xs[0]);
      assert (xs + ys)[1..] == xs[1..] + ys;
      RunAppend(Step(t, xs[0]), xs[1..], ys);
    }
  }

  // Text

  function Chars(s: seq<byte>): (evs: seq<Event>)
    ensures |evs| == |s|
  {
    seq(|s|, i requires 0 <= i < |s| => Char(s[i]))
  }

  predicate Printable(c: byte) {
    c != NEWLINE && c != RETURN && c != TAB && c != BACKSPACE
  }

  /** Cell p after printing s, given the cells before. */
  ghost predicate Printed(t: Tape, s: seq<byte>, r: Tape) {
    && r.fg == t.fg && r.bg == t.bg && r.pos == t.pos + |s| && |r.cells| >= |t.cells|
    && (forall p :: t.pos <= p < t.pos + |s| && p < |r.cells| ==> r.cells[p] == Cell(t.fg, t.bg, s[p - t.pos]))
    && (forall p :: 0 <= p < |t.cells| && !(t.pos <= p < t.pos + |s|) ==> r.cells[p] == t.cells[p])
    && (forall p :: |t.cells| <= p < |r.cells| && t.pos + |s| <= p ==> r.cells[p] == t.Blank())
  }

  /** Characters other than the four control characters are laid out one after the other from the
      cursor on, whatever is on the screen, and everything else stays. */
  lemma {:induction false} PlainText(t: Tape, s: seq<byte>)
    requires t.Valid() && forall c | c in s :: Printable(c)
    ensures Run(t, Chars(s)).Valid() && Printed(t, s, Run(t, Chars(s)))
    decreases |s|
  {
    if s != [] {
      var k := |s| - 1;
      var before := s[..k];
      PlainText(t, before);
      assert Chars(s) == Chars(before) + [Char(s[k])];
      RunAppend(t, Chars(before), [Char(s[k])]);
      var u := Run(t, Chars(before));
      StepValid(u, Char(s[k]));
      assert Run(u, [Char(s[k])]) == u.Put(s[k]) by {
        assert [Char(s[k])][1..] == [];
      }
      assert s[k] in s;
      OneMore(t, before, u, s[k]);
      assert before + [s[k]] == s;
    }
  }

  lemma OneMore(t: Tape, s: seq<byte>, u: Tape, c: byte)
    requires t.Valid() && u.Valid() && Printed(t, s, u) && Printable(c)
    ensures Printed(t, s + [c], u.Put(c))
  {
    hide Cell;
  }

  /** A line of text takes one row more than it fills completely. */
  lemma LineHeight(t: Tape, s: seq<byte>)
    requires t.Valid() && t.pos % WIDTH == 0 && forall c | c in s :: Printable(c)
    ensures Run(t, Chars(s + [10])).pos == t.pos + (|s| / 80 + 1) * 80
  {
    PlainText(t, s);
    assert Chars(s + [NEWLINE]) == Chars(s) + [Char(NEWLINE)];
    RunAppend(t, Chars(s), [Char(NEWLINE)]);
    var u := Run(t, Chars(s));
    assert [Char(NEWLINE)][1..] == [];
    assert (t.pos + |s|) / WIDTH == t.pos / WIDTH + |s| / WIDTH;
  }

  /** The control characters stay in the cursor's row: carriage return goes to its first column,
      a tab to the next multiple of four columns (possibly the next row's first), a newline to the
      first column of the next row. None of them changes a cell. */
  lemma ControlMoves(t: Tape)
    requires t.Valid()
    ensures var r := t.Put(13); r.pos % 80 == 0 && t.pos - 80 < r.pos <= t.pos && r.cells == t.cells
    ensures var r := t.Put(9); r.pos % 80 % 4 == 0 && t.pos < r.pos <= t.pos + 4 && t.cells <= r.cells
    ensures var r := t.Put(10); r.pos % 80 == 0 && t.pos < r.pos <= t.pos + 80 && t.cells <= r.cells
  {
    RowBounds(t.Top(), t.pos, |t.cells|);
    TabStop(t.pos);
    RowStart(t.pos);
    hide Cell, Blanks;
  }

  lemma RowStart(pos: nat)
    ensures pos / 80 * 80 % 80 == 0 && pos - 80 < pos / 80 * 80 <= pos
    ensures (pos / 80 + 1) * 80 % 80 == 0 && pos < (pos / 80 + 1) * 80 <= pos + 80
  {
  }

  lemma TabStop(pos: nat)
    ensures (pos / 4 + 1) * 4 % 80 % 4 == 0 && pos < (pos / 4 + 1) * 4 <= pos + 4
  {
  }

  /** A backspace takes back the character before it exactly when that character was not in the
      last column, where the cursor has already wrapped; it leaves a blank. */
  lemma BackspaceUndoes(t: Tape, c: byte)
    requires t.Valid() && Printable(c)
    ensures t.Put(c).Valid()
    ensures t.pos % 80 != 79 ==> t.Put(c).Put(8) == t.Write(t.pos, t.Blank())
    ensures t.Put(c).Put(8).pos == t.pos <==> t.pos % 80 != 79
  {
    StepValid(t, Char(c));
    var u := t.Put(c);
    if t.pos % WIDTH != WIDTH - 1 {
      assert (t.pos + 1) % WIDTH == t.pos % WIDTH + 1;
      assert t.pos + 1 < |t.cells|;
      assert t.cells[t.pos := Cell(t.fg, t.bg, c)][t.pos := t.Blank()] == t.cells[t.pos := t.Blank()];
    } else {
      assert (t.pos + 1) % WIDTH == 0;
    }
  }
}
