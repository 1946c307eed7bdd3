/** The specification of the scrollback terminal (src/vga.c): a document of rows that
    is never cut off, a cursor, and the row at the top of the view. The program keeps
    only the newest 256 rows; the document says what they are the newest rows of. */
module Terminal {
  import opened Basics

  // Rows are 78 cells wide, views 23 rows high, the screen is 80 by 25. These, and the
  // 256 retained rows, are written as literals, which keeps the arithmetic linear.

  /** A cell: the character in the low byte, the colour in the high byte. */
  function Entry(c: char, color: u8): u16 {
    c as int % 256 + 256 * color
  }

  function BlankRow(color: u8): (r: seq<u16>)
    ensures |r| == 78 && forall x :: 0 <= x < 78 ==> r[x] == Entry(' ', color)
  {
    seq(78, _ => Entry(' ', color))
  }

  /** `row` and `col` are the cursor, `top` the document row shown at the top. */
  datatype Doc = Doc(rows: seq<seq<u16>>, row: nat, col: nat, top: nat)

  /** The oldest row that is still retained. */
  function Oldest(d: Doc): nat {
    if |d.rows| > 256 then |d.rows| - 256 else 0
  }

  /** The top of the view that shows the newest rows. */
  function Bottom(d: Doc): nat {
    if |d.rows| > 23 then |d.rows| - 23 else 0
  }

  ghost predicate WellFormed(d: Doc) {
    && (forall r <- d.rows :: |r| == 78)
    && Oldest(d) <= d.row < |d.rows|
    && d.col < 78
    && Oldest(d) <= d.top <= Bottom(d)
  }

  // ----- output

  /** The cursor goes to the start of the next row, which becomes blank, and new if
      there was none. The view moves only when its top row is no longer retained. */
  function NextRow(d: Doc, color: u8): Doc {
    var rows := if d.row + 1 < |d.rows| then d.rows[d.row + 1 := BlankRow(color)]
                else d.rows + [BlankRow(color)];
    var next := Doc(rows, d.row + 1, 0, d.top);
    next.(top := if d.top < Oldest(next) then Oldest(next) else d.top)
  }

  /** A view at the bottom follows the bottom. */
  function NewLine(d: Doc, color: u8): Doc {
    var next := NextRow(d, color);
    if d.top == Bottom(d) then next.(top := Bottom(next)) else next
  }

  function SetCell(d: Doc, y: nat, x: nat, cell: u16): Doc
    requires y < |d.rows| && x < |d.rows[y]|
  {
    var line: seq<u16> := d.rows[y][x := cell];
    d.(rows := d.rows[y := line])
  }

  function PutChar(d: Doc, c: char, color: u8): Doc
    requires WellFormed(d)
  {
    if c == '\n' then NewLine(d, color)
    else if c == BACKSPACE then
      if d.col > 0 then SetCell(d, d.row, d.col - 1, Entry(' ', color)).(col := d.col - 1)
      else if d.row > Oldest(d) then
        SetCell(d, d.row - 1, 77, Entry(' ', color)).(row := d.row - 1, col := 77)
      else d
    else
      var written := SetCell(d, d.row, d.col, Entry(c, color));
      if d.col == 77 then NewLine(written, color) else written.(col := d.col + 1)
  }

  function WriteText(d: Doc, text: seq<char>, color: u8): (r: Doc)
    requires WellFormed(d)
    ensures WellFormed(r)
  {
    if text == [] then d
    else
      var before := WriteText(d, text[..|text| - 1], color);
      PutCharWellFormed(before, text[|text| - 1], color);
      PutChar(before, text[|text| - 1], color)
  }

  // ----- other operations

  function Cleared(color: u8): Doc {
    Doc([BlankRow(color)], 0, 0, 0)
  }

  function Scroll(d: Doc, delta: int): Doc {
    var next := d.top + delta;
    d.(top := if next < Oldest(d) then Oldest(d) else if next > Bottom(d) then Bottom(d) else next)
  }

  function PutEntryAt(d: Doc, x: nat, y: nat, cell: u16): Doc
    requires WellFormed(d)
  {
    if y < 23 && x < 78 && d.top + y < |d.rows| then SetCell(d, d.top + y, x, cell) else d
  }

  // ----- the screen

  /** The cell at position p of the 80 by 25 screen: a blank border around the rows of
      the view, blank below the document's end. */
  function Pixel(d: Doc, color: u8, p: nat): u16
    requires WellFormed(d) && p < 2000
  {
    var y, x := p / 80, p % 80;
    if 1 <= y <= 23 && 1 <= x <= 78 && d.top + y - 1 < |d.rows| then d.rows[d.top + y - 1][x - 1]
    else Entry(' ', color)
  }

  /** Where the hardware cursor is shown: on its row, or on the last row of a view
      that does not show it. */
  function CursorPosition(d: Doc): nat {
    var shown := if d.top <= d.row < d.top + 23 then d.row - d.top else 22;
    (shown + 1) * 80 + d.col + 1
  }

  // ----- properties

  lemma SetCellWellFormed(d: Doc, y: nat, x: nat, cell: u16)
    requires WellFormed(d) && y < |d.rows| && x < 78
    ensures WellFormed(SetCell(d, y, x, cell))
  {
  }

  lemma NextRowWellFormed(d: Doc, color: u8)
    requires WellFormed(d)
    ensures WellFormed(NextRow(d, color))
  {
  }

  lemma NewLineWellFormed(d: Doc, color: u8)
    requires WellFormed(d)
    ensures WellFormed(NewLine(d, color))
  {
  }

  lemma PutCharWellFormed(d: Doc, c: char, color: u8)
    requires WellFormed(d)
    ensures WellFormed(PutChar(d, c, color))
  {
    if c == '\n' {
      NewLineWellFormed(d, color);
    } else if c != BACKSPACE {
      SetCellWellFormed(d, d.row, d.col, Entry(c, color));
      if d.col == 77 {
        NewLineWellFormed(SetCell(d, d.row, d.col, Entry(c, color)), color);
      }
    }
  }

  /** The low byte is the character, the high byte the colour. */
  lemma EntryBytes(c: char, color: u8)
    ensures Entry(c, color) % 256 == c as int % 256 && Entry(c, color) / 256 == color
  {
  }

  /** At most 256 rows are retained, and the view at the bottom ends with the newest row,
      on the last of its 23 rows when there are that many. */
  lemma WindowMeaning(d: Doc)
    requires WellFormed(d)
    ensures |d.rows| - Oldest(d) == if |d.rows| < 256 then |d.rows| else 256
    ensures Bottom(d) + 23 == if |d.rows| < 23 then 23 else |d.rows|
  {
  }

  /** The border of the screen is blank. */
  lemma BorderBlank(d: Doc, color: u8, p: nat)
    requires WellFormed(d) && p < 2000 && (p / 80 == 0 || p / 80 == 24 || p % 80 == 0 || p % 80 == 79)
    ensures Pixel(d, color, p) == Entry(' ', color)
  {
  }

  /** Inside it, row y of the content shows the y-th row of the view, blank when the
      document has none. */
  lemma ContentShown(d: Doc, color: u8, y: nat, x: nat)
    requires WellFormed(d) && y < 23 && x < 78
    ensures Pixel(d, color, (y + 1) * 80 + x + 1)
         == if d.top + y < |d.rows| then d.rows[d.top + y][x] else Entry(' ', color)
  {
    ScreenPosition(y, x);
  }

  lemma ScreenPosition(y: nat, x: nat)
    requires y < 23 && x < 78
    ensures ((y + 1) * 80 + x + 1) / 80 == y + 1 && ((y + 1) * 80 + x + 1) % 80 == x + 1
  {
  }

  /** A cleared screen is blank all over, with the cursor on the first content cell. */
  lemma ClearedShown(color: u8, p: nat)
    requires p < 2000
    ensures WellFormed(Cleared(color)) && |Cleared(color).rows| == 1
    ensures Pixel(Cleared(color), color, p) == Entry(' ', color)
    ensures CursorPosition(Cleared(color)) == 81
  {
  }

  /** The hardware cursor is on the cell that the next character will take: written where
      its row is shown, the character appears there, and nowhere else on the screen. */
  lemma CharacterAtCursor(d: Doc, c: char, color: u8, p: nat)
    requires WellFormed(d) && c != '\n' && c != BACKSPACE && p < 2000
    requires d.col < 77 && d.top <= d.row < d.top + 23
    ensures WellFormed(PutChar(d, c, color))
    ensures Pixel(PutChar(d, c, color), color, p) == if p == CursorPosition(d) then Entry(c, color) else Pixel(d, color, p)
    ensures CursorPosition(PutChar(d, c, color)) == CursorPosition(d) + 1
  {
    PutCharWellFormed(d, c, color);
    ScreenPosition(d.row - d.top, d.col);
    assert p == p / 80 * 80 + p % 80;
    hide Entry;
  }

  /** Overwriting a cell of the view changes that cell of the screen, and no other. */
  lemma PutEntryShown(d: Doc, x: nat, y: nat, cell: u16, color: u8, p: nat)
    requires WellFormed(d) && p < 2000
    ensures var e := PutEntryAt(d, x, y, cell);
            && WellFormed(e) && e.row == d.row && e.col == d.col && e.top == d.top && |e.rows| == |d.rows|
            && Pixel(e, color, p)
               == if y < 23 && x < 78 && d.top + y < |d.rows| && p == (y + 1) * 80 + x + 1 then cell
                  else Pixel(d, color, p)
  {
    if y < 23 && x < 78 {
      ScreenPosition(y, x);
      assert p == p / 80 * 80 + p % 80;
    }
    hide Entry;
  }

  /** Scrolling moves the view by as many rows as asked for, as far as there are retained
      rows, and nothing else. */
  lemma ScrollMeaning(d: Doc, delta: int)
    requires WellFormed(d)
    ensures var e := Scroll(d, delta);
            && WellFormed(e) && e.rows == d.rows && e.row == d.row && e.col == d.col
            && (Oldest(d) <= d.top + delta <= Bottom(d) ==> e.top == d.top + delta)
            && (d.top + delta < Oldest(d) ==> e.top == Oldest(d))
            && (d.top + delta > Bottom(d) ==> e.top == Bottom(d))
  {
  }

  /** Scrolling by some rows and back by as many restores the view exactly when neither
      end stops it, or when it started at one end and both do. */
  lemma ScrollBackAndForward(d: Doc, delta: int)
    requires WellFormed(d)
    ensures Scroll(Scroll(d, delta), -delta) == d <==>
            || Oldest(d) <= d.top + delta <= Bottom(d)
            || (d.top == Oldest(d) && delta >= Bottom(d) - Oldest(d))
            || (d.top == Bottom(d) && -delta >= Bottom(d) - Oldest(d))
  {
  }

  /** Rows shown after scrolling back n rows are those shown before, n rows further down. */
  lemma ScrollShown(d: Doc, n: int, color: u8, y: nat, x: nat)
    requires WellFormed(d) && 0 <= n && Oldest(d) + n <= d.top && y + n < 23 && x < 78
    ensures WellFormed(Scroll(d, -n))
    ensures Pixel(Scroll(d, -n), color, (y + n + 1) * 80 + x + 1) == Pixel(d, color, (y + 1) * 80 + x + 1)
  {
    ScrollMeaning(d, -n);
    ContentShown(d, color, y, x);
    ContentShown(Scroll(d, -n), color, y + n, x);
  }

  /** The hardware cursor stays inside the content area of the screen. */
  lemma CursorInContent(d: Doc)
    requires WellFormed(d)
    ensures 1 <= CursorPosition(d) / 80 <= 23 && CursorPosition(d) % 80 == d.col + 1 <= 78
    ensures d.top <= d.row < d.top + 23 ==> d.top + CursorPosition(d) / 80 == d.row + 1
    ensures !(d.top <= d.row < d.top + 23) ==> CursorPosition(d) / 80 == 23
  {
  }

  /** Output and the view: at the bottom it stays at the bottom; scrolled back it keeps
      its rows, unless the oldest of them is no longer retained. */
  lemma OutputKeepsView(d: Doc, c: char, color: u8)
    requires WellFormed(d)
    ensures var after := PutChar(d, c, color);
            && (d.top == Bottom(d) ==> after.top == Bottom(after))
            && (d.top < Bottom(d) && d.top >= Oldest(after) ==> after.top == d.top)
            && (d.top < Bottom(d) && d.top < Oldest(after) ==> d.top == Oldest(d) && after.top == Oldest(d) + 1)
            && |d.rows| <= |after.rows| <= |d.rows| + 1
  {
    hide BlankRow, Entry;
  }

  /** The same for any text: at the bottom the view stays at the bottom; scrolled back it
      shows the rows that it showed, or the oldest retained ones when those are newer. */
  lemma {:induction false} WriteKeepsView(d: Doc, text: seq<char>, color: u8)
    requires WellFormed(d)
    ensures var e := WriteText(d, text, color);
            && (d.top == Bottom(d) ==> e.top == Bottom(e))
            && (d.top < Bottom(d) ==>
                 e.top < Bottom(e) && e.top == if d.top < Oldest(e) then Oldest(e) else d.top)
    decreases |text|
  {
    if text != [] {
      WriteKeepsView(d, text[..|text| - 1], color);
      OutputKeepsView(WriteText(d, text[..|text| - 1], color), text[|text| - 1], color);
      hide PutChar;
    }
  }

  predicate Printable(c: char) {
    c != '\n' && c != BACKSPACE
  }

  /** A backspace after a character brings the cursor back, also across the wrap, and
      leaves that cell blank; of the other rows only one that the wrap entered is
      changed, to a blank row. */
  lemma BackspaceAfterCharacter(d: Doc, c: char, color: u8)
    requires WellFormed(d) && Printable(c)
    ensures WellFormed(PutChar(d, c, color))
    ensures var after := PutChar(PutChar(d, c, color), BACKSPACE, color);
            && after.row == d.row && after.col == d.col
            && after.rows[..d.row] == d.rows[..d.row]
            && after.rows[d.row] == d.rows[d.row][d.col := Entry(' ', color)]
            && |after.rows| == (if d.col == 77 && d.row + 1 == |d.rows| then d.row + 2 else |d.rows|)
            && forall y :: d.row < y < |after.rows| ==>
                 after.rows[y] == if d.col == 77 && y == d.row + 1 then BlankRow(color) else d.rows[y]
  {
    PutCharWellFormed(d, c, color);
    var written := SetCell(d, d.row, d.col, Entry(c, color));
    var after := PutChar(PutChar(d, c, color), BACKSPACE, color);
    assert written.rows[d.row] == d.rows[d.row][d.col := Entry(c, color)];
    if d.col == 77 {
      assert NewLine(written, color).rows[d.row] == written.rows[d.row];
    }
    assert after.rows[d.row] == d.rows[d.row][d.col := Entry(' ', color)];
  }

  /** The cell at position p when the rows are read one after the other. */
  function CellAt(d: Doc, p: nat): u16 {
    if p / 78 < |d.rows| && |d.rows[p / 78]| == 78 then d.rows[p / 78][p % 78] else 0
  }

  /** The position of the cursor in that order. */
  function Cursor(d: Doc): nat {
    d.row * 78 + d.col
  }

  lemma WriteLast(d: Doc, front: seq<char>, c: char, color: u8)
    requires WellFormed(d)
    ensures WriteText(d, front + [c], color) == PutChar(WriteText(d, front, color), c, color)
  {
    assert (front + [c])[..|front|] == front;
  }

  /** Where the cursor is after a text without backspaces. */
  function Advanced(at: nat, text: seq<char>): nat {
    if text == [] then at
    else
      var before := Advanced(at, text[..|text| - 1]);
      if text[|text| - 1] == '\n' then (before / 78 + 1) * 78 else before + 1
  }

  /** What cell p holds after such a text, when it held `cell` before. */
  function Written(at: nat, text: seq<char>, p: nat, cell: u16, color: u8): u16 {
    if text == [] then cell
    else
      var front, c := text[..|text| - 1], text[|text| - 1];
      if c != '\n' && Advanced(at, front) == p then Entry(c, color)
      else Written(at, front, p, cell, color)
  }

  /** Cell p before anything is written, the rows that the cursor enters on its way to
      `row` being blank. */
  function Underneath(d: Doc, row: nat, p: nat, color: u8): u16 {
    if d.row < p / 78 <= row then Entry(' ', color) else CellAt(d, p)
  }

  /** How many rows there are when the cursor has come to `row`. */
  function RowsUpTo(d: Doc, row: nat): nat {
    if row < |d.rows| then |d.rows| else row + 1
  }

  /** Document e is d with `text` written at d's cursor, cell for cell. */
  ghost predicate LaidOut(d: Doc, e: Doc, text: seq<char>, color: u8) {
    && WellFormed(e)
    && Cursor(e) == Advanced(Cursor(d), text) && |e.rows| == RowsUpTo(d, e.row)
    && forall p :: 0 <= p < |e.rows| * 78 ==>
         CellAt(e, p) == Written(Cursor(d), text, p, Underneath(d, e.row, p, color), color)
  }

  /** Document e is d with one more character. */
  ghost predicate OneMore(d: Doc, e: Doc, c: char, color: u8) {
    && WellFormed(e)
    && Cursor(e) == (if c == '\n' then (Cursor(d) / 78 + 1) * 78 else Cursor(d) + 1)
    && |e.rows| == RowsUpTo(d, e.row)
    && forall p :: 0 <= p < |e.rows| * 78 ==>
         CellAt(e, p) == if c != '\n' && p == Cursor(d) then Entry(c, color) else Underneath(d, e.row, p, color)
  }

  lemma CellAtSet(d: Doc, y: nat, x: nat, cell: u16, p: nat)
    requires WellFormed(d) && y < |d.rows| && x < 78 && p < |d.rows| * 78
    ensures CellAt(SetCell(d, y, x, cell), p) == if p == y * 78 + x then cell else CellAt(d, p)
  {
    assert p == p / 78 * 78 + p % 78;
  }

  lemma CellAtNewLine(d: Doc, color: u8, p: nat)
    requires WellFormed(d) && p < |NewLine(d, color).rows| * 78
    ensures CellAt(NewLine(d, color), p) == Underneath(d, d.row + 1, p, color)
  {
    hide Entry;
    assert p == p / 78 * 78 + p % 78;
  }

  lemma NewLineIsOneMore(d: Doc, color: u8)
    requires WellFormed(d)
    ensures OneMore(d, NewLine(d, color), '\n', color)
  {
    NewLineWellFormed(d, color);
    var e := NewLine(d, color);
    assert |e.rows| == RowsUpTo(d, d.row + 1) && e.row == d.row + 1 && e.col == 0;
    hide NewLine, Entry, Underneath, CellAt;
    forall p | 0 <= p < |e.rows| * 78 ensures CellAt(e, p) == Underneath(d, e.row, p, color) {
      CellAtNewLine(d, color, p);
    }
  }

  lemma CellAtAgain(d: Doc, e: Doc, p: nat)
    requires e.rows == d.rows
    ensures CellAt(e, p) == CellAt(d, p)
  {
  }

  lemma CharacterIsOneMore(d: Doc, c: char, color: u8)
    requires WellFormed(d) && c != BACKSPACE
    ensures OneMore(d, PutChar(d, c, color), c, color)
  {
    if c == '\n' {
      NewLineIsOneMore(d, color);
    } else {
      var written := SetCell(d, d.row, d.col, Entry(c, color));
      SetCellWellFormed(d, d.row, d.col, Entry(c, color));
      if d.col == 77 {
        NewLineIsOneMore(written, color);
      }
      PutCharWellFormed(d, c, color);
      var e := PutChar(d, c, color);
      assert |written.rows| == |d.rows|;
      hide NewLine, Entry, SetCell, CellAt;
      forall p | 0 <= p < |e.rows| * 78
        ensures CellAt(e, p) == if p == Cursor(d) then Entry(c, color) else Underneath(d, e.row, p, color)
      {
        if p < |d.rows| * 78 {
          CellAtSet(d, d.row, d.col, Entry(c, color), p);
          if d.col < 77 {
            CellAtAgain(written, e, p);
          }
        }
      }
    }
  }

  lemma LaidOutThen(d: Doc, before: Doc, after: Doc, front: seq<char>, c: char, color: u8)
    requires LaidOut(d, before, front, color) && OneMore(before, after, c, color)
    ensures LaidOut(d, after, front + [c], color)
  {
    hide Entry, CellAt;
    var text := front + [c];
    assert text[..|front|] == front;
    forall p | 0 <= p < |after.rows| * 78
      ensures CellAt(after, p) == Written(Cursor(d), text, p, Underneath(d, after.row, p, color), color)
    {
      if before.row < p / 78 <= after.row {
        NothingBeyond(Cursor(d), front, p, Entry(' ', color), color);
      }
    }
  }

  /** Cells from the cursor on are not written yet. */
  lemma {:induction false} NothingBeyond(at: nat, text: seq<char>, p: nat, cell: u16, color: u8)
    requires p >= Advanced(at, text)
    ensures at <= Advanced(at, text) && Written(at, text, p, cell, color) == cell
  {
    if text != [] {
      var before := Advanced(at, text[..|text| - 1]);
      assert before / 78 * 78 <= before < before / 78 * 78 + 78;
      NothingBeyond(at, text[..|text| - 1], p, cell, color);
    }
  }

  /** A text without backspaces, of any length, lies in the document exactly where its
      line breaks and the row width put it, and changes nothing else. */
  lemma {:induction false} TextLaidOut(d: Doc, text: seq<char>, color: u8)
    requires WellFormed(d) && BACKSPACE !in text
    ensures LaidOut(d, WriteText(d, text, color), text, color)
    decreases |text|
  {
    if text != [] {
      var front, c := text[..|text| - 1], text[|text| - 1];
      assert text == front + [c];
      TextLaidOut(d, front, color);
      WriteLast(d, front, c, color);
      CharacterIsOneMore(WriteText(d, front, color), c, color);
      LaidOutThen(d, WriteText(d, front, color), WriteText(d, text, color), front, c, color);
    }
  }

  /** n backspaces. */
  function Backspaces(n: nat): (r: seq<char>)
    ensures |r| == n
  {
    if n == 0 then [] else Backspaces(n - 1) + [BACKSPACE]
  }

  /** The first cell of the oldest retained row, where backspacing stops. */
  function Stop(d: Doc): nat {
    Oldest(d) * 78
  }

  /** Document e is d with the cursor n cells further back, but not before the oldest
      retained row, the cells passed blank and nothing else changed. */
  ghost predicate Erased(d: Doc, e: Doc, n: nat, color: u8) {
    && WellFormed(e) && |e.rows| == |d.rows| && e.top == d.top
    && Cursor(e) == (if Cursor(d) >= Stop(d) + n then Cursor(d) - n else Stop(d))
    && forall p :: 0 <= p < |d.rows| * 78 ==>
         CellAt(e, p) == if Cursor(e) <= p < Cursor(d) then Entry(' ', color) else CellAt(d, p)
  }

  lemma OneBackspace(d: Doc, color: u8)
    requires WellFormed(d)
    ensures Erased(d, PutChar(d, BACKSPACE, color), 1, color)
  {
    hide Entry;
    PutCharWellFormed(d, BACKSPACE, color);
    var e := PutChar(d, BACKSPACE, color);
    forall p | 0 <= p < |d.rows| * 78
      ensures CellAt(e, p) == if Cursor(e) <= p < Cursor(d) then Entry(' ', color) else CellAt(d, p)
    {
      assert p == p / 78 * 78 + p % 78;
    }
  }

  lemma ErasedThen(d: Doc, before: Doc, after: Doc, n: nat, color: u8)
    requires WellFormed(d) && Erased(d, before, n, color) && Erased(before, after, 1, color)
    ensures Erased(d, after, n + 1, color)
  {
    assert Cursor(d) >= Stop(d);
    hide CellAt, Entry, WellFormed, Cursor;
  }

  /** n backspaces move the cursor back n cells, across row starts but not before the
      oldest retained row, and blank exactly the cells they pass. */
  lemma {:induction false} BackspacesErase(d: Doc, n: nat, color: u8)
    requires WellFormed(d)
    ensures Erased(d, WriteText(d, Backspaces(n), color), n, color)
  {
    if n == 0 {
      assert Cursor(d) >= Stop(d);
    } else {
      hide Erased;
      BackspacesErase(d, n - 1, color);
      WriteLast(d, Backspaces(n - 1), BACKSPACE, color);
      OneBackspace(WriteText(d, Backspaces(n - 1), color), color);
      ErasedThen(d, WriteText(d, Backspaces(n - 1), color), WriteText(d, Backspaces(n), color), n - 1, color);
    }
  }
}
