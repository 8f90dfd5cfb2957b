/**
  The text screen: 25 rows of 80 cells in video memory, written at a cursor and
  scrolled, against an endless sheet of paper written by the same rules.
 */
module Console {

  const WIDTH: nat := 80
  const HEIGHT: nat := 25

  /** A cell: the character in the low byte, white on black in the high byte. */
  function Cell(c: int): int { 0x0F00 + c }

  const BLANK: int := Cell(0x20)

  /** A signed character. */
  type Char = c: int | -128 <= c < 128

  const BACKSPACE: Char := 0x08
  const TAB: Char := 0x09
  const NEWLINE: Char := 0x0A
  const RETURN: Char := 0x0D
  const SPACE: Char := 0x20

  // ----- the sheet -----------------------------------------------------------------

  /** An endless sheet: what has been written where, and the pen's place. Cells never
      written are blank. */
  datatype Sheet = Sheet(cells: Cells, x: nat, y: nat)

  type Cells = map<(nat, nat), int>

  const EMPTY: Sheet := Sheet(map[], 0, 0)

  function At(cells: Cells, row: nat, col: nat): int {
    if (row, col) in cells then cells[(row, col)] else BLANK
  }

  /** Nothing is written from a row on. */
  ghost predicate BlankFrom(cells: Cells, row: nat) {
    forall r: nat, c: nat :: (r, c) in cells ==> r < row
  }

  /** The pen after a character, before the right margin is looked at. */
  function Written(s: Sheet, c: Char): Sheet {
    if c == BACKSPACE && s.x > 0 then s.(x := s.x - 1)
    else if c == TAB then s.(x := (s.x / 8 + 1) * 8)
    else if c == RETURN then s.(x := 0)
    else if c == NEWLINE then s.(x := 0, y := s.y + 1)
    else if c >= SPACE then s.(cells := s.cells[(s.y, s.x) := Cell(c)], x := s.x + 1)
    else s
  }

  function Put(s: Sheet, c: Char): Sheet {
    var t := Written(s, c);
    if t.x >= WIDTH then t.(x := 0, y := t.y + 1) else t
  }

  function PutAll(s: Sheet, text: seq<Char>): Sheet
    decreases |text|
  {
    if text == [] then s else Put(PutAll(s, text[..|text| - 1]), text[|text| - 1])
  }

  /** Putting one text and then another is putting both. */
  lemma {:induction false} PutBoth(s: Sheet, a: seq<Char>, b: seq<Char>)
    ensures PutAll(s, a + b) == PutAll(PutAll(s, a), b)
    decreases |b|
  {
    if b == [] {
      assert a + b == a;
    } else {
      var front := b[..|b| - 1];
      assert (a + b)[..|a + b| - 1] == a + front;
      PutBoth(s, a, front);
    }
  }

  predicate Printable(text: seq<Char>) {
    forall k :: 0 <= k < |text| ==> text[k] >= SPACE
  }

  /** Printable text fills the sheet in reading order, 80 to the row. */
  lemma {:induction false} PrintableFills(text: seq<Char>)
    requires Printable(text)
    ensures var s := PutAll(EMPTY, text);
      && s.x < WIDTH && s.y * WIDTH + s.x == |text|
      && forall row: nat, col: nat :: col < WIDTH ==>
           At(s.cells, row, col) == if Place(row, col) < |text| then Cell(text[Place(row, col)]) else BLANK
    decreases |text|
  {
    if text != [] {
      var front := text[..|text| - 1];
      PrintableFills(front);
      var s, t := PutAll(EMPTY, front), PutAll(EMPTY, text);
      forall row: nat, col: nat | col < WIDTH
        ensures At(t.cells, row, col) == if Place(row, col) < |text| then Cell(text[Place(row, col)]) else BLANK
      {
        if Place(row, col) == |front| {
          assert row == s.y && col == s.x;
        } else {
          assert At(t.cells, row, col) == At(s.cells, row, col);
        }
      }
    }
  }

  function Place(row: nat, col: nat): nat { row * WIDTH + col }

  // ----- control characters ----------------------------------------------------------

  /** A printable character lands at a place if it is put there and nowhere else. */
  ghost predicate LandsAt(s: Sheet, t: Sheet, c: Char, row: nat, col: nat) {
    t.cells == s.cells[(row, col) := Cell(c)]
  }

  /** After a return the next character lands in the first column of the same row, after a
      newline in that of the next row. */
  lemma ReturnThenPut(s: Sheet, c: Char)
    requires c >= SPACE
    ensures LandsAt(s, Put(Put(s, RETURN), c), c, s.y, 0)
    ensures LandsAt(s, Put(Put(s, NEWLINE), c), c, s.y + 1, 0)
  {
  }

  /** After a tab it lands at the next tab stop, the least multiple of 8 beyond the pen; if
      that is the right margin, at the beginning of the next row. */
  lemma TabThenPut(s: Sheet, c: Char, stop: nat)
    requires s.x < WIDTH && c >= SPACE
    requires stop > s.x && stop % 8 == 0 && forall m: nat :: s.x < m < stop ==> m % 8 != 0
    ensures LandsAt(s, Put(Put(s, TAB), c), c, if stop < WIDTH then s.y else s.y + 1, if stop < WIDTH then stop else 0)
  {
    TabStop(s.x, stop);
  }

  lemma TabStop(x: nat, stop: nat)
    requires stop > x && stop % 8 == 0 && forall m: nat :: x < m < stop ==> m % 8 != 0
    ensures stop == (x / 8 + 1) * 8
  {
    var next := (x / 8 + 1) * 8;
    assert next % 8 == 0 && x < next;
    assert stop <= next;
    assert stop == stop / 8 * 8 && stop / 8 > x / 8;
  }

  /** After a character and a backspace the next one takes the character's place, unless
      the character was the last of its row: then the pen stands at the beginning of the
      next row, where a backspace does nothing. */
  lemma BackspaceOverwritesIff(s: Sheet, d: Char, c: Char)
    requires s.x < WIDTH && c >= SPACE && d >= SPACE
    ensures Put(Put(Put(s, d), BACKSPACE), c) == Put(s, c) <==> s.x + 1 < WIDTH
    ensures s.x + 1 == WIDTH ==> LandsAt(Put(s, d), Put(Put(Put(s, d), BACKSPACE), c), c, s.y + 1, 0)
  {
    if s.x + 1 < WIDTH {
      assert s.cells[(s.y, s.x) := Cell(d)][(s.y, s.x) := Cell(c)] == s.cells[(s.y, s.x) := Cell(c)];
    } else {
      assert Put(Put(Put(s, d), BACKSPACE), c).x != Put(s, c).x;
    }
  }

  /** Any other character below the space leaves the sheet as it is. */
  lemma OthersIgnored(s: Sheet, c: Char)
    requires s.x < WIDTH && c < SPACE && c !in {BACKSPACE, TAB, RETURN, NEWLINE}
    ensures Put(s, c) == s
  {
  }

  // ----- lines -------------------------------------------------------------------------

  predicate Line(line: seq<Char>) {
    Printable(line) && |line| < WIDTH
  }

  /** The lines with a newline between any two. */
  function Joined(lines: seq<seq<Char>>): seq<Char>
    decreases |lines|
  {
    if lines == [] then []
    else if |lines| == 1 then lines[0]
    else Joined(lines[..|lines| - 1]) + [NEWLINE] + lines[|lines| - 1]
  }

  /** Printable text that stays inside the row stands there from the pen on, and nothing
      else changes. */
  lemma {:induction false} LinePut(s: Sheet, line: seq<Char>)
    requires Printable(line) && s.x + |line| < WIDTH
    ensures var t := PutAll(s, line);
      && t.x == s.x + |line| && t.y == s.y
      && forall row: nat, col: nat ::
           At(t.cells, row, col) == if row == s.y && s.x <= col < t.x then Cell(line[col - s.x]) else At(s.cells, row, col)
    decreases |line|
  {
    if line != [] {
      var front := line[..|line| - 1];
      LinePut(s, front);
      var t, u := PutAll(s, front), PutAll(s, line);
      forall row: nat, col: nat
        ensures At(u.cells, row, col) == if row == s.y && s.x <= col < u.x then Cell(line[col - s.x]) else At(s.cells, row, col)
      {
        if row != t.y || col != t.x { assert At(u.cells, row, col) == At(t.cells, row, col); }
      }
    }
  }

  /** What stands at a place of a sheet on which the lines have been written from row on. */
  ghost predicate LineCell(cells: Cells, was: Cells, lines: seq<seq<Char>>, row: nat, i: nat, col: nat) {
    At(cells, i, col) ==
      if row <= i < row + |lines| && col < |lines[i - row]| then Cell(lines[i - row][col]) else At(was, i, col)
  }

  lemma LineNext(s: Sheet, t: Sheet, v: Sheet, lines: seq<seq<Char>>, front: seq<seq<Char>>,
                 last: seq<Char>)
    requires |lines| > 1 && front == lines[..|lines| - 1] && last == lines[|lines| - 1]
    requires forall i: nat, col: nat :: LineCell(t.cells, s.cells, front, s.y, i, col)
    requires forall i: nat, col: nat ::
      At(v.cells, i, col) == if i == s.y + |front| && col < |last| then Cell(last[col]) else At(t.cells, i, col)
    ensures forall i: nat, col: nat :: LineCell(v.cells, s.cells, lines, s.y, i, col)
  {
    forall i: nat, col: nat
      ensures LineCell(v.cells, s.cells, lines, s.y, i, col)
    {
      assert LineCell(t.cells, s.cells, front, s.y, i, col);
    }
  }

  /** Lines shorter than a row, joined by newlines, stand on consecutive rows from the
      first column on. */
  lemma {:induction false} LinesStand(s: Sheet, lines: seq<seq<Char>>)
    requires s.x == 0 && lines != [] && forall i :: 0 <= i < |lines| ==> Line(lines[i])
    ensures var t := PutAll(s, Joined(lines));
      && t.y == s.y + |lines| - 1 && t.x == |lines[|lines| - 1]|
      && forall i: nat, col: nat :: LineCell(t.cells, s.cells, lines, s.y, i, col)
    decreases |lines|
  {
    if |lines| == 1 {
      LinePut(s, lines[0]);
    } else {
      var front, last := lines[..|lines| - 1], lines[|lines| - 1];
      LinesStand(s, front);
      var t := PutAll(s, Joined(front));
      var u := Put(t, NEWLINE);
      PutBoth(s, Joined(front), [NEWLINE]);
      assert PutAll(t, [NEWLINE]) == u by { assert [NEWLINE][..0] == []; }
      PutBoth(s, Joined(front) + [NEWLINE], last);
      LinePut(u, last);
      LineNext(s, t, PutAll(u, last), lines, front, last);
    }
  }

  // ----- the screen ----------------------------------------------------------------

  class Screen {
    const video: array<int>
    var cursorX: nat
    var cursorY: nat
    ghost var top: nat     // the row of the sheet that the first row shows

    /** The screen shows rows top to top + 24 of the sheet, the first ones or the ones
        that end at the pen's row; later rows are blank, and the cursor is where the
        pen is. */
    ghost predicate Shows(s: Sheet)
      reads this, video
    {
      && video.Length == WIDTH * HEIGHT
      && cursorX == s.x < WIDTH && cursorY < HEIGHT && top + cursorY == s.y
      && (top == 0 || cursorY == HEIGHT - 1)
      && Picture(s.cells) && BlankFrom(s.cells, s.y + 1)
    }

    ghost predicate Picture(cells: Cells)
      requires video.Length == WIDTH * HEIGHT
      reads `top, video
    {
      forall row: nat, col: nat :: row < HEIGHT && col < WIDTH ==> CellOk(cells, row, col)
    }

    ghost predicate CellOk(cells: Cells, row: nat, col: nat)
      requires video.Length == WIDTH * HEIGHT && row < HEIGHT && col < WIDTH
      reads `top, video
    {
      video[Place(row, col)] == At(cells, top + row, col)
    }

    constructor (memory: array<int>)
      requires memory.Length == WIDTH * HEIGHT
      ensures video == memory
    {
      video := memory;
      cursorX, cursorY, top := 0, 0, 0;
    }

    /** clear_screen */
    method Clear()
      requires video.Length == WIDTH * HEIGHT
      modifies this, video
      ensures Shows(EMPTY) && top == 0
    {
      for i := 0 to WIDTH * HEIGHT
        invariant forall k :: 0 <= k < i ==> video[k] == BLANK
      {
        video[i] := BLANK;
      }
      cursorX, cursorY, top := 0, 0, 0;
    }

    /** putchar: if the screen showed a sheet, it shows the sheet with the character
        put on it; the rows shown move down only when the pen has left them. */
    method PutChar(c: Char, ghost s: Sheet)
      requires Shows(s)
      modifies this, video
      ensures Shows(Put(s, c))
    {
      Write(c, s);
      ghost var t := Written(s, c);
      if cursorX >= WIDTH {
        cursorX := 0;
        cursorY := cursorY + 1;
        t := Put(s, c);
      }
      Scroll(t);
    }

    /** The screen shows sheet s, except that the cursor may be past the right margin
        or just below the last row. */
    ghost predicate Nearly(s: Sheet)
      reads this, video
    {
      && video.Length == WIDTH * HEIGHT
      && cursorX == s.x && cursorY <= HEIGHT && top + cursorY == s.y
      && (top == 0 || cursorY >= HEIGHT - 1)
      && Picture(s.cells) && BlankFrom(s.cells, if cursorY == HEIGHT then s.y else s.y + 1)
    }

    method Write(c: Char, ghost s: Sheet)
      requires Shows(s)
      modifies `cursorX, `cursorY, video
      ensures Nearly(Written(s, c)) && cursorX <= WIDTH && (cursorX == WIDTH ==> cursorY < HEIGHT)
    {
      if c == BACKSPACE && cursorX > 0 {
        cursorX := cursorX - 1;
      } else if c == TAB {
        cursorX := (cursorX + 8) / 8 * 8;
      } else if c == RETURN {
        cursorX := 0;
      } else if c == NEWLINE {
        cursorX := 0;
        cursorY := cursorY + 1;
      } else if c >= SPACE {
        WriteCell(c, s);
        cursorX := cursorX + 1;
      }
    }

    method WriteCell(c: Char, ghost s: Sheet)
      requires Shows(s)
      modifies video
      ensures var t := s.(cells := s.cells[(s.y, s.x) := Cell(c)]);
        Picture(t.cells) && BlankFrom(t.cells, t.y + 1)
    {
      ghost var t := s.(cells := s.cells[(s.y, s.x) := Cell(c)]);
      video[cursorY * 80 + cursorX] := Cell(c);
      forall row: nat, col: nat | row < HEIGHT && col < WIDTH
        ensures CellOk(t.cells, row, col)
      {
        assert old(CellOk(s.cells, row, col));
      }
    }

    method Scroll(ghost s: Sheet)
      requires Nearly(s) && s.x < WIDTH
      modifies this, video
      ensures Shows(s) && top == (if old(cursorY) >= HEIGHT then old(top) + 1 else old(top))
    {
      if cursorY >= HEIGHT {
        MoveUp();
        cursorY := HEIGHT - 1;
        top := top + 1;
        forall row: nat, col: nat | row < HEIGHT && col < WIDTH
          ensures CellOk(s.cells, row, col)
        {
          if row + 1 < HEIGHT { assert old(CellOk(s.cells, row + 1, col)); }
        }
      }
    }

    /** Every row moves up by one, and the last becomes blank. */
    method MoveUp()
      requires video.Length == WIDTH * HEIGHT
      modifies video
      ensures forall k :: 0 <= k < 80 * 24 ==> video[k] == old(video[k + 80])
      ensures forall k :: 80 * 24 <= k < 80 * 25 ==> video[k] == BLANK
    {
      for i := 0 to 80 * 24
        invariant forall k :: 0 <= k < i ==> video[k] == old(video[k + 80])
        invariant forall k :: i <= k < 80 * 25 ==> video[k] == old(video[k])
      {
        video[i] := video[i + 80];
      }
      for i := 24 * 80 to 25 * 80
        invariant forall k :: 0 <= k < 80 * 24 ==> video[k] == old(video[k + 80])
        invariant forall k :: 80 * 24 <= k < i ==> video[k] == BLANK
      {
        video[i] := BLANK;
      }
    }

    /** puts, from the character after clear_screen on: any text leaves the screen
        showing 25 rows of the sheet that the text fills. */
    method PutText(text: seq<Char>, ghost s: Sheet)
      requires Shows(s)
      modifies this, video
      ensures Shows(PutAll(s, text))
    {
      for i := 0 to |text|
        invariant Shows(PutAll(s, text[..i]))
      {
        assert text[..i + 1][..i] == text[..i];
        PutChar(text[i], PutAll(s, text[..i]));
      }
      assert text[..|text|] == text;
    }

    /** clear_screen, and puts of lines with a newline between any two: the screen shows
        the last 25 of them, each on a row of its own from the first column on. */
    method ShowLines(lines: seq<seq<Char>>)
      requires video.Length == WIDTH * HEIGHT
      requires lines != [] && forall i :: 0 <= i < |lines| ==> Line(lines[i])
      modifies this, video
      ensures var first := if |lines| > HEIGHT then |lines| - HEIGHT else 0;
        forall row: nat, col: nat :: row < HEIGHT && col < WIDTH ==>
          video[Place(row, col)] ==
            if first + row < |lines| && col < |lines[first + row]| then Cell(lines[first + row][col]) else BLANK
      ensures cursorX == |lines[|lines| - 1]| && cursorY == (if |lines| > HEIGHT then HEIGHT else |lines|) - 1
    {
      Clear();
      PutText(Joined(lines), EMPTY);
      LinesStand(EMPTY, lines);
      ghost var s := PutAll(EMPTY, Joined(lines));
      forall row: nat, col: nat | row < HEIGHT && col < WIDTH
        ensures video[Place(row, col)] ==
          if top + row < |lines| && col < |lines[top + row]| then Cell(lines[top + row][col]) else BLANK
      {
        assert CellOk(s.cells, row, col) && LineCell(s.cells, EMPTY.cells, lines, 0, top + row, col);
      }
    }
  }
}
