/** What the cells of the screen show, bit by bit: the character in the low byte, the foreground in
  bits 8 to 11, the background in bits 12 to 15. */
module TerminalCells {
  import opened Bytes
  import opened Terminal

  predicate Shows(cell: uint16, c: int, f: Color, b: Color) {
    cell % 0x100 == c && cell / 0x100 % 0x10 == f && cell / 0x1000 == b
  }

  lemma CellShows(f: Color, b: Color, c: byte)
    ensures if c < 128 then Shows(Cell(f, b, c), c, f, b) else Shows(Cell(f, b, c), c, 15, 15)
  {
    if c < 128 {
      SplitCell(b, f, c);
    } else {
      SplitCell(15, 15, c);
    }
  }

  lemma SplitCell(b: Color, f: Color, c: byte)
    ensures Shows(0x1000 * b + 0x100 * f + c, c, f, b)
  {
    var cell := 0x1000 * b + 0x100 * f + c;
    assert cell == 0x100 * (0x10 * b + f) + c;
    assert cell / 0x100 == 0x10 * b + f && cell % 0x100 == c;
    assert cell == 0x1000 * b + (0x100 * f + c) && 0x100 * f + c < 0x1000;
  }

  lemma BlankShows(t: Tape)
    ensures Shows(t.Blank(), 32, t.fg, t.bg)
  {
    CellShows(t.fg, t.bg, SPACE);
  }

  /** The screen of a new driver: 2000 blanks, white on black, the cursor in the first cell. */
  lemma InitialScreen()
    ensures var t := Initial(); t.Valid() && |t.cells| == 2000 && t.pos == 0 && forall p :: 0 <= p < 2000 ==> t.cells[p] == 0x0F20
  {
  }

  // Single events

  /** Only `Colors` changes the colours, and cells that an event adds are blank. */
  lemma NewCellsBlank(t: Tape, ev: Event)
    requires t.Valid()
    ensures var r := Step(t, ev);
      && (if ev.Colors? then r == t.(fg := ev.fg, bg := ev.bg) else r.fg == t.fg && r.bg == t.bg)
      && |t.cells| <= |r.cells|
      && forall p :: |t.cells| <= p < |r.cells| ==> Shows(r.cells[p], 32, t.fg, t.bg)
  {
    BlankShows(t);
    hide Cell, Shows;
  }

  /** A character other than 8, 9, 10 and 13 goes to the cursor's cell, with the current colours if
      it is a 7-bit one, and all others stay; the cursor moves on by one. */
  lemma CharShown(t: Tape, c: byte)
    requires t.Valid() && c !in {8, 9, 10, 13}
    ensures var r := Step(t, Char(c));
      && r.pos == t.pos + 1 && |t.cells| <= |r.cells|
      && (if c < 128 then Shows(r.cells[t.pos], c, t.fg, t.bg) else Shows(r.cells[t.pos], c, 15, 15))
      && forall p :: 0 <= p < |t.cells| && p != t.pos ==> r.cells[p] == t.cells[p]
  {
    CellShows(t.fg, t.bg, c);
    hide Cell, Shows;
  }

  /** A backspace blanks the cell before the cursor and moves there, except in the first column,
      where it does nothing. */
  lemma BackspaceBlanks(t: Tape)
    requires t.Valid()
    ensures var r := Step(t, Char(8));
      if t.pos % 80 == 0 then r == t
      else r.pos == t.pos - 1 && |r.cells| == |t.cells| && Shows(r.cells[t.pos - 1], 32, t.fg, t.bg)
           && forall p :: 0 <= p < |t.cells| && p != t.pos - 1 ==> r.cells[p] == t.cells[p]
  {
    BlankShows(t);
    hide Cell, Shows;
  }

  /** The cursor goes to column x of row y of the window, or stays if there is no such cell. */
  lemma CursorMoves(t: Tape, x: byte, y: byte)
    requires t.Valid()
    ensures var r := Step(t, Cursor(x, y));
      && r == t.(pos := r.pos)
      && if x < 80 && y < 25 then (r.pos - t.Top()) % 80 == x && (r.pos - t.Top()) / 80 == y else r.pos == t.pos
  {
  }

  /** Erasing blanks every cell of the window in the current colours and moves to its start. */
  lemma EraseBlanks(t: Tape)
    requires t.Valid()
    ensures var r := Step(t, Erase);
      && r.Valid() && r.pos == r.Top() == t.Top() && |r.cells| == |t.cells| && r.fg == t.fg && r.bg == t.bg
      && (forall p :: 0 <= p < t.Top() ==> r.cells[p] == t.cells[p])
      && forall p :: t.Top() <= p < |r.cells| ==> Shows(r.cells[p], 32, t.fg, t.bg)
  {
    BlankShows(t);
    hide Cell, Shows;
  }

  // Text

  /** 7-bit text without control characters. */
  predicate PlainAscii(s: seq<byte>) {
    forall c | c in s :: c < 128 && c !in {8, 9, 10, 13}
  }

  /** Text in the current colours. */
  lemma TextShown(t: Tape, s: seq<byte>)
    requires t.Valid() && PlainAscii(s)
    ensures var r := Run(t, Chars(s));
      && r.Valid() && r.pos == t.pos + |s| && |t.cells| <= |r.cells|
      && (forall i :: 0 <= i < |s| ==> Shows(r.cells[t.pos + i], s[i], t.fg, t.bg))
      && (forall p :: 0 <= p < |t.cells| && !(t.pos <= p < t.pos + |s|) ==> r.cells[p] == t.cells[p])
      && forall p :: |t.cells| <= p < |r.cells| && t.pos + |s| <= p ==> Shows(r.cells[p], 32, t.fg, t.bg)
  {
    PlainText(t, s);
    BlankShows(t);
    var r := Run(t, Chars(s));
    forall i | 0 <= i < |s| ensures Shows(r.cells[t.pos + i], s[i], t.fg, t.bg) {
      assert s[i] in s;
      CellShows(t.fg, t.bg, s[i]);
      assert r.cells[t.pos + i] == Cell(t.fg, t.bg, s[t.pos + i - t.pos]);
    }
    hide Cell, Shows, Run;
  }

  /** After the colours were set, text appears in them, and so do the blanks of new rows. */
  lemma ColouredText(t: Tape, f: Color, b: Color, s: seq<byte>)
    requires t.Valid() && PlainAscii(s)
    ensures var r := Run(t, [Colors(f, b)] + Chars(s));
      && r.Valid() && r.pos == t.pos + |s| && |t.cells| <= |r.cells|
      && (forall i :: 0 <= i < |s| ==> Shows(r.cells[t.pos + i], s[i], f, b))
      && (forall p :: 0 <= p < |t.cells| && !(t.pos <= p < t.pos + |s|) ==> r.cells[p] == t.cells[p])
      && forall p :: |t.cells| <= p < |r.cells| && t.pos + |s| <= p ==> Shows(r.cells[p], 32, f, b)
  {
    var u := Step(t, Colors(f, b));
    assert ([Colors(f, b)] + Chars(s))[1..] == Chars(s);
    TextShown(u, s);
    hide Shows;
  }

  /** After an erasure the screen shows only what was printed since, on blanks, whatever went
      before. */
  lemma ErasedText(t: Tape, evs: seq<Event>, s: seq<byte>)
    requires t.Valid() && PlainAscii(s)
    ensures Run(t, evs).Valid()
    ensures var u, r := Run(t, evs), Run(t, evs + [Erase] + Chars(s));
      && r.Valid() && r.pos == u.Top() + |s| && u.Top() <= r.Top()
      && forall p :: u.Top() <= p < |r.cells| ==> Shows(r.cells[p], if p - u.Top() < |s| then s[p - u.Top()] else 32, u.fg, u.bg)
  {
    RunValid(t, evs);
    var u := Run(t, evs);
    RunAppend(t, evs, [Erase] + Chars(s));
    assert evs + [Erase] + Chars(s) == evs + ([Erase] + Chars(s));
    assert ([Erase] + Chars(s))[1..] == Chars(s);
    TextOnBlank(u, s);
    hide Shows, Step, PlainAscii;
  }

  lemma TextOnBlank(u: Tape, s: seq<byte>)
    requires u.Valid() && PlainAscii(s)
    ensures Step(u, Erase).Valid()
    ensures var r := Run(Step(u, Erase), Chars(s));
      && r.Valid() && r.pos == u.Top() + |s| && u.Top() <= r.Top()
      && forall p :: u.Top() <= p < |r.cells| ==> Shows(r.cells[p], if p - u.Top() < |s| then s[p - u.Top()] else 32, u.fg, u.bg)
  {
    hide Shows, Run, Step, PlainAscii;
    EraseBlanks(u);
    var e := Step(u, Erase);
    TextShown(e, s);
    var r := Run(e, Chars(s));
    forall p | u.Top() <= p < |r.cells| ensures Shows(r.cells[p], if p - u.Top() < |s| then s[p - u.Top()] else 32, u.fg, u.bg) {
      if p - u.Top() < |s| {
        assert r.cells[p] == r.cells[e.pos + (p - u.Top())];
      } else if p < |e.cells| {
        assert r.cells[p] == e.cells[p];
      }
    }
  }

  // The screen has no memory beyond its window

  /** Equal windows, cursor places and colours. */
  ghost predicate SameScreen(t: Tape, u: Tape) {
    && t.Valid() && u.Valid() && SamePlace(t, u)
  }

  ghost predicate SamePlace(t: Tape, u: Tape) {
    SameWindow(t, u) && t.pos - t.Top() == u.pos - u.Top()
  }

  ghost predicate SameWindow(t: Tape, u: Tape) {
    && |t.cells| >= CELLS && |u.cells| >= CELLS && t.fg == u.fg && t.bg == u.bg
    && t.Window() == u.Window()
  }

  lemma WindowWrite(t: Tape, p: nat, cell: uint16)
    requires |t.cells| >= CELLS && t.Top() <= p < |t.cells|
    ensures t.Write(p, cell).Window() == t.Window()[p - t.Top() := cell]
  {
  }

  lemma WindowMove(t: Tape, p: nat)
    requires |t.cells| >= CELLS && t.Top() <= p
    ensures var r := t.MoveTo(p);
      && |r.cells| >= CELLS && r.fg == t.fg && r.bg == t.bg
      && r.pos - r.Top() == p - t.Top() - (if p < |t.cells| then 0 else WIDTH)
      && r.Window() == if p < |t.cells| then t.Window() else t.Window()[WIDTH..] + Blanks(WIDTH, t.Blank())
  {
    hide Cell;
  }

  lemma SameWrite(t: Tape, u: Tape, p: nat, q: nat, cell: uint16)
    requires SameWindow(t, u) && t.Top() <= p < |t.cells| && p - t.Top() == q - u.Top()
    ensures SameWindow(t.Write(p, cell), u.Write(q, cell))
  {
    WindowWrite(t, p, cell);
    WindowWrite(u, q, cell);
  }

  lemma SameMove(t: Tape, u: Tape, p: nat, q: nat)
    requires SameWindow(t, u) && t.Top() <= p <= |t.cells| && p - t.Top() == q - u.Top()
    ensures SameWindow(t.MoveTo(p), u.MoveTo(q))
    ensures t.MoveTo(p).pos - t.MoveTo(p).Top() == u.MoveTo(q).pos - u.MoveTo(q).Top()
  {
    WindowMove(t, p);
    WindowMove(u, q);
    hide Tape.MoveTo, Tape.Window;
  }

  /** Rows and tab stops are counted from the first column of the window. */
  lemma SameColumns(top: nat, pos: nat, d: int)
    requires top % 80 == 0 && top <= pos && d % 80 == 0 && top + d >= 0
    ensures (pos + d) % 80 == pos % 80 && (pos + d) / 80 * 80 == pos / 80 * 80 + d
    ensures ((pos + d) / 80 + 1) * 80 == (pos / 80 + 1) * 80 + d && ((pos + d) / 4 + 1) * 4 == (pos / 4 + 1) * 4 + d
  {
    var k := d / 80;
    assert d == 80 * k;
    assert (pos + d) / 80 == pos / 80 + k;
    assert (pos + d) / 4 == pos / 4 + 20 * k;
  }

  lemma SamePut(t: Tape, u: Tape, c: byte)
    requires SameScreen(t, u)
    ensures SameScreen(t.Put(c), u.Put(c))
  {
    PutValid(t, c);
    PutValid(u, c);
    hide Tape.Put, SameWindow;
    if Control(c) {
      SameControl(t, u, c);
    } else if c != BACKSPACE {
      SameCharacter(t, u, c);
    } else {
      SameBackspace(t, u);
    }
  }

  lemma SameCharacter(t: Tape, u: Tape, c: byte)
    requires SameScreen(t, u) && Printable(c)
    ensures SamePlace(t.Put(c), u.Put(c))
  {
    SameColours(t, u);
    hide Tape.MoveTo, Tape.Write, Cell, SameWindow;
    WriteMove(t, u, t.pos, u.pos, Cell(t.fg, t.bg, c), t.pos + 1, u.pos + 1);
  }

  lemma SameBackspace(t: Tape, u: Tape)
    requires SameScreen(t, u)
    ensures SamePlace(t.Put(BACKSPACE), u.Put(BACKSPACE))
  {
    SameColours(t, u);
    TopsApart(t, u);
    SameColumns(t.Top(), t.pos, u.Top() - t.Top());
    hide Tape.MoveTo, Tape.Write, Cell, SameWindow;
    if t.pos % 80 > 0 {
      LeftNeighbour(t);
      WriteMove(t, u, t.pos - 1, u.pos - 1, t.Blank(), t.pos - 1, u.pos - 1);
    }
  }

  lemma SameColours(t: Tape, u: Tape)
    requires SameWindow(t, u)
    ensures t.fg == u.fg && t.bg == u.bg
  {
  }

  lemma WriteMove(t: Tape, u: Tape, a: nat, b: nat, cell: uint16, p: nat, q: nat)
    requires SameWindow(t, u) && t.Top() <= a < |t.cells| && a - t.Top() == b - u.Top()
    requires t.Top() <= p <= |t.cells| && p - t.Top() == q - u.Top() && b < |u.cells|
    ensures var r, v := t.Write(a, cell).MoveTo(p), u.Write(b, cell).MoveTo(q);
      SamePlace(r, v)
  {
    SameWrite(t, u, a, b, cell);
    SameMove(t.Write(a, cell), u.Write(b, cell), p, q);
  }

  /** Where return, tab and newline go. */
  function Goal(pos: nat, c: byte): nat {
    if c == NEWLINE then (pos / 80 + 1) * 80 else if c == RETURN then pos / 80 * 80 else (pos / 4 + 1) * 4
  }

  lemma GoalInWindow(t: Tape, c: byte)
    requires t.Valid() && Control(c)
    ensures t.Put(c) == t.MoveTo(Goal(t.pos, c)) && t.Top() <= Goal(t.pos, c) <= |t.cells|
  {
    hide Tape.MoveTo;
    RowBounds(t.Top(), t.pos, |t.cells|);
  }

  lemma SameGoal(t: Tape, u: Tape, c: byte)
    requires t.Valid() && u.Valid() && t.pos - t.Top() == u.pos - u.Top()
    ensures Goal(t.pos, c) - t.Top() == Goal(u.pos, c) - u.Top()
  {
    TopsApart(t, u);
    hide Tape.Valid;
    GoalShifts(t.Top(), t.pos, u.Top() - t.Top(), c);
  }

  lemma TopsApart(t: Tape, u: Tape)
    requires t.Valid() && u.Valid()
    ensures t.Top() % 80 == 0 && (u.Top() - t.Top()) % 80 == 0 && t.Top() <= t.pos
  {
    var a, b := |t.cells| / 80, |u.cells| / 80;
    assert |t.cells| == 80 * a && |u.cells| == 80 * b;
    assert t.Top() == 80 * (a - 25) && u.Top() - t.Top() == 80 * (b - a);
  }

  lemma GoalShifts(top: nat, pos: nat, d: int, c: byte)
    requires top % 80 == 0 && top <= pos && d % 80 == 0 && top + d >= 0
    ensures Goal(pos + d, c) == Goal(pos, c) + d
  {
    SameColumns(top, pos, d);
  }

  lemma SameControl(t: Tape, u: Tape, c: byte)
    requires SameScreen(t, u) && Control(c)
    ensures SamePlace(t.Put(c), u.Put(c))
  {
    GoalInWindow(t, c);
    GoalInWindow(u, c);
    SameGoal(t, u, c);
    hide Tape.MoveTo, Tape.Put, Tape.Window, Goal;
    SameMove(t, u, Goal(t.pos, c), Goal(u.pos, c));
  }

  lemma SameErased(t: Tape, u: Tape)
    requires t.Valid() && u.Valid() && t.fg == u.fg && t.bg == u.bg
    ensures SameScreen(Step(t, Erase), Step(u, Erase))
  {
    StepValid(t, Erase);
    StepValid(u, Erase);
    assert t.Clear().Window() == Blanks(CELLS, t.Blank()) && u.Clear().Window() == Blanks(CELLS, u.Blank());
  }

  lemma SameStep(t: Tape, u: Tape, ev: Event)
    requires SameScreen(t, u)
    ensures SameScreen(Step(t, ev), Step(u, ev))
  {
    match ev {
      case Char(c) =>
        SamePut(t, u, c);
      case Erase =>
        SameErased(t, u);
      case _ =>
        StepValid(t, ev);
        StepValid(u, ev);
    }
  }

  lemma {:induction false} SameRun(t: Tape, u: Tape, evs: seq<Event>)
    requires SameScreen(t, u)
    ensures SameScreen(Run(t, evs), Run(u, evs))
    decreases |evs|
  {
    if evs != [] {
      SameStep(t, u, evs[0]);
      hide SameScreen, Step;
      SameRun(Step(t, evs[0]), Step(u, evs[0]), evs[1..]);
    }
  }

  /** After an erasure everything shown follows from the colours at that moment and from the later
      events: two terminals with any histories look the same from then on. */
  lemma EraseForgets(t: Tape, u: Tape, evs: seq<Event>)
    requires t.Valid() && u.Valid() && t.fg == u.fg && t.bg == u.bg
    ensures SameScreen(Run(t, [Erase] + evs), Run(u, [Erase] + evs))
  {
    SameErased(t, u);
    assert ([Erase] + evs)[1..] == evs;
    hide SameScreen, Step;
    SameRun(Step(t, Erase), Step(u, Erase), evs);
  }
}
